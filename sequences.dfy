/**
 * Sequence helpers shared by the pipeline: distinctness, first occurrence,
 * the order-preserving de-duplication that pandas performs for
 * `Series.unique()` and `DataFrame.drop_duplicates()`, and `str.join`.
 */
module Sequences {

  /** No element occurs twice. */
  predicate Distinct<T(==)>(s: seq<T>) {
    forall i, j :: 0 <= i < j < |s| ==> s[i] != s[j]
  }

  /** Position of the first occurrence of `x` in `s`. */
  function FirstIndex<T(==)>(s: seq<T>, x: T): (k: nat)
    requires x in s
    ensures k < |s| && s[k] == x && x !in s[..k]
  {
    if s[0] == x then 0
    else
      var k' := FirstIndex(s[1..], x);
      assert s[..k' + 1] == [s[0]] + s[1..][..k'];
      k' + 1
  }

  /** The first occurrence is the only position before which `x` is absent. */
  lemma FirstIndexUnique<T>(s: seq<T>, x: T, k: nat)
    requires k < |s| && s[k] == x && x !in s[..k]
    ensures FirstIndex(s, x) == k
  {
  }

  /** Appending at the end does not move first occurrences of earlier elements. */
  lemma FirstIndexPrefix<T>(p: seq<T>, y: T, x: T)
    requires x in p
    ensures FirstIndex(p + [y], x) == FirstIndex(p, x)
  {
    var k := FirstIndex(p, x);
    assert (p + [y])[..k] == p[..k];
    FirstIndexUnique(p + [y], x, k);
  }

  /**
   * The distinct elements of `s`, each kept at its first occurrence, in the
   * order of those occurrences: pandas' `unique()` and `drop_duplicates()`.
   */
  function Unique<T(==,!new)>(s: seq<T>): (r: seq<T>)
    ensures forall x :: x in r <==> x in s
    ensures Distinct(r)
    ensures |r| <= |s|
  {
    if s == [] then []
    else
      var u := Unique(s[..|s| - 1]);
      assert s == s[..|s| - 1] + [s[|s| - 1]];
      if s[|s| - 1] in u then u else u + [s[|s| - 1]]
  }

  /** Kept elements appear in the order of their first occurrence in the input. */
  lemma {:induction false} UniqueKeepsFirstOccurrenceOrder<T(!new)>(s: seq<T>, i: nat, j: nat)
    requires i < j < |Unique(s)|
    ensures FirstIndex(s, Unique(s)[i]) < FirstIndex(s, Unique(s)[j])
  {
    var p, y := s[..|s| - 1], s[|s| - 1];
    assert s == p + [y];
    var u := Unique(p);
    var a, b := Unique(s)[i], Unique(s)[j];
    if y in u {
      UniqueKeepsFirstOccurrenceOrder(p, i, j);
      FirstIndexPrefix(p, y, a);
      FirstIndexPrefix(p, y, b);
    } else if j < |u| {
      UniqueKeepsFirstOccurrenceOrder(p, i, j);
      FirstIndexPrefix(p, y, a);
      FirstIndexPrefix(p, y, b);
    } else {
      assert b == y && y !in p;
      FirstIndexUnique(s, y, |p|);
      FirstIndexPrefix(p, y, a);
    }
  }

  /** Appending an element already seen changes nothing; a new one is kept at the end. */
  lemma UniqueSnoc<T(!new)>(s: seq<T>, x: T)
    ensures Unique(s + [x]) == if x in s then Unique(s) else Unique(s) + [x]
  {
    assert (s + [x])[..|s + [x]| - 1] == s;
    if x in s {
      var i :| 0 <= i < |s| && s[i] == x;
      assert x in Unique(s);
    } else {
      assert x !in Unique(s);
    }
  }

  /** A sequence without repetitions is left as it is. */
  lemma {:induction false} UniqueOfDistinct<T(!new)>(s: seq<T>)
    requires Distinct(s)
    ensures Unique(s) == s
  {
    if s != [] {
      var p := s[..|s| - 1];
      assert Distinct(p);
      UniqueOfDistinct(p);
      assert s[|s| - 1] !in p;
      assert s == p + [s[|s| - 1]];
    }
  }

  /** De-duplicating twice is the same as de-duplicating once. */
  lemma UniqueIdempotent<T(!new)>(s: seq<T>)
    ensures Unique(Unique(s)) == Unique(s)
  {
    UniqueOfDistinct(Unique(s));
  }

  /** Regrouping a three-part concatenation, stated over names so callers need not unfold them. */
  lemma Regroup<T>(total: seq<T>, mid: seq<T>, tail: seq<T>, before: seq<T>, own: seq<T>, later: seq<T>)
    requires total == mid + later && mid == before + own && tail == own + later
    ensures total == before + tail
  {
  }

  /** Python's `sep.join(parts)`. */
  function JoinWith(sep: string, parts: seq<string>): string
  {
    if |parts| == 0 then ""
    else if |parts| == 1 then parts[0]
    else JoinWith(sep, parts[..|parts| - 1]) + sep + parts[|parts| - 1]
  }

  /** Total length of the parts. */
  function SumLengths(parts: seq<string>): nat
  {
    if parts == [] then 0 else SumLengths(parts[..|parts| - 1]) + |parts[|parts| - 1]|
  }

  /** The joined string holds every part plus one separator between neighbours. */
  lemma {:induction false} JoinWithLength(sep: string, parts: seq<string>)
    requires parts != []
    ensures |JoinWith(sep, parts)| == SumLengths(parts) + (|parts| - 1) * |sep|
  {
    if |parts| > 1 {
      JoinWithLength(sep, parts[..|parts| - 1]);
    } else {
      assert parts[..0] == [];
    }
  }

  /** Joining two leading parts and a rest: the two parts, then the rest behind a separator when there is one. */
  lemma JoinWithPair(sep: string, x: string, y: string, rest: seq<string>)
    ensures JoinWith(sep, [x, y] + rest)
      == x + sep + y + (if rest == [] then "" else sep + JoinWith(sep, rest))
  {
    assert [x, y][..1] == [x];
    if rest == [] {
      assert [x, y] + rest == [x, y];
    } else {
      JoinWithAppend(sep, [x, y], rest);
    }
  }

  /** Joining two non-empty groups is joining each and putting one separator between. */
  lemma {:induction false} JoinWithAppend(sep: string, a: seq<string>, b: seq<string>)
    requires a != [] && b != []
    ensures JoinWith(sep, a + b) == JoinWith(sep, a) + sep + JoinWith(sep, b)
  {
    if |b| == 1 {
      assert (a + b)[..|a + b| - 1] == a;
    } else {
      var b' := b[..|b| - 1];
      assert (a + b)[..|a + b| - 1] == a + b';
      JoinWithAppend(sep, a, b');
    }
  }
}
