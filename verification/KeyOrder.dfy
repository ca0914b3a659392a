/** The order in which the routes file lists its keys: `sort()` on strings is a total order by
    code point, so sorting forgets the iteration order of the hash map. */
module KeyOrder {
  predicate Leq(a: string, b: string) {
    a == [] || (b != [] && (a[0] < b[0] || (a[0] == b[0] && Leq(a[1..], b[1..]))))
  }

  lemma LeqTotal(a: string, b: string)
    ensures Leq(a, b) || Leq(b, a)
  {
  }

  lemma LeqAntisymmetric(a: string, b: string)
    requires Leq(a, b) && Leq(b, a)
    ensures a == b
  {
    if a != [] {
      LeqAntisymmetric(a[1..], b[1..]);
      assert a == [a[0]] + a[1..] && b == [b[0]] + b[1..];
    }
  }

  lemma LeqTransitive(a: string, b: string, c: string)
    requires Leq(a, b) && Leq(b, c)
    ensures Leq(a, c)
  {
    if a != [] && a[0] == b[0] && b[0] == c[0] {
      LeqTransitive(a[1..], b[1..], c[1..]);
    }
  }

  predicate Sorted(ks: seq<string>) {
    forall i, j :: 0 <= i < j < |ks| ==> Leq(ks[i], ks[j])
  }

  function Insert(k: string, ks: seq<string>): (r: seq<string>)
    requires Sorted(ks)
    ensures Sorted(r) && multiset(r) == multiset{k} + multiset(ks)
  {
    if ks == [] || Leq(k, ks[0]) then
      InsertFront(k, ks);
      [k] + ks
    else
      InsertRest(k, ks, Insert(k, ks[1..]));
      [ks[0]] + Insert(k, ks[1..])
  }

  lemma InsertFront(k: string, ks: seq<string>)
    requires Sorted(ks) && (ks == [] || Leq(k, ks[0]))
    ensures Sorted([k] + ks) && multiset([k] + ks) == multiset{k} + multiset(ks)
  {
    forall j | 0 < j < |ks| ensures Leq(k, ks[j]) {
      LeqTransitive(k, ks[0], ks[j]);
    }
  }

  lemma InsertRest(k: string, ks: seq<string>, r: seq<string>)
    requires Sorted(ks) && ks != [] && !Leq(k, ks[0])
    requires Sorted(r) && multiset(r) == multiset{k} + multiset(ks[1..])
    ensures Sorted([ks[0]] + r) && multiset([ks[0]] + r) == multiset{k} + multiset(ks)
  {
    LeqTotal(k, ks[0]);
    forall j | 0 <= j < |r| ensures Leq(ks[0], r[j]) {
      assert r[j] in multiset(r);
      if r[j] != k {
        assert r[j] in ks[1..];
      }
    }
    assert ks == [ks[0]] + ks[1..];
  }

  function SortKeys(ks: seq<string>): (r: seq<string>)
    ensures Sorted(r) && multiset(r) == multiset(ks)
  {
    if ks == [] then [] else
      assert ks == [ks[0]] + ks[1..];
      Insert(ks[0], SortKeys(ks[1..]))
  }

  lemma TailBag(a: seq<string>)
    requires a != []
    ensures a == [a[0]] + a[1..] && multiset(a[1..]) == multiset(a) - multiset{a[0]}
    ensures a[0] in multiset(a)
  {
    assert a == [a[0]] + a[1..];
  }

  lemma SameHead(a: seq<string>, b: seq<string>)
    requires Sorted(a) && Sorted(b) && multiset(a) == multiset(b) && a != [] && b != []
    ensures a[0] == b[0]
  {
    assert a[0] in multiset(b) && b[0] in multiset(a);
    SortedHeadLeast(a, b[0]);
    SortedHeadLeast(b, a[0]);
    LeqAntisymmetric(a[0], b[0]);
  }

  /** A sorted sequence is determined by its elements. */
  lemma SortedUnique(a: seq<string>, b: seq<string>)
    requires Sorted(a) && Sorted(b) && multiset(a) == multiset(b)
    ensures a == b
  {
    assert |a| == |multiset(a)| == |b|;
    if a != [] {
      TailBag(a);
      TailBag(b);
      SameHead(a, b);
      SortedUnique(a[1..], b[1..]);
    }
  }

  lemma SortedHeadLeast(a: seq<string>, x: string)
    requires Sorted(a) && x in a
    ensures Leq(a[0], x)
  {
    LeqTotal(x, x);
  }

  /** `ks` lists each element of `s` once, in some order: one iteration over a hash map's keys. */
  ghost predicate Enumerates(ks: seq<string>, s: set<string>) {
    && (forall k :: k in ks <==> k in s)
    && forall i, j :: 0 <= i < j < |ks| ==> ks[i] != ks[j]
  }

  lemma EnumerationTail(ks: seq<string>, s: set<string>)
    requires Enumerates(ks, s) && ks != []
    ensures Enumerates(ks[1..], s - {ks[0]})
  {
    forall k ensures k in ks[1..] <==> k in s - {ks[0]} {
      if k in s && k != ks[0] {
        var i :| 0 <= i < |ks| && ks[i] == k;
        assert ks[1..][i - 1] == k;
      }
    }
  }

  lemma EnumerationBag(ks: seq<string>, s: set<string>)
    requires Enumerates(ks, s)
    ensures multiset(ks) == multiset(s)
  {
    if ks == [] {
      assert s == {};
    } else {
      EnumerationTail(ks, s);
      EnumerationBag(ks[1..], s - {ks[0]});
      assert ks == [ks[0]] + ks[1..];
      assert multiset(s) == multiset(s - {ks[0]})[ks[0] := 1];
    }
  }

  /** Whatever order the map was iterated in, the sorted list of its keys is the same. */
  lemma SortForgetsOrder(ks1: seq<string>, ks2: seq<string>, s: set<string>)
    requires Enumerates(ks1, s) && Enumerates(ks2, s)
    ensures SortKeys(ks1) == SortKeys(ks2)
  {
    EnumerationBag(ks1, s);
    EnumerationBag(ks2, s);
    SortedUnique(SortKeys(ks1), SortKeys(ks2));
  }

  lemma SortEnumerates(ks: seq<string>, s: set<string>)
    requires Enumerates(ks, s)
    ensures Enumerates(SortKeys(ks), s)
  {
    var r := SortKeys(ks);
    EnumerationBag(ks, s);
    forall k ensures k in r <==> k in s {
      assert k in r <==> k in multiset(r);
    }
    forall i, j | 0 <= i < j < |r| ensures r[i] != r[j] {
      if r[i] == r[j] { RepeatCounts(r, i, j); }
    }
  }

  lemma RepeatCounts<T>(r: seq<T>, i: nat, j: nat)
    requires i < j < |r| && r[i] == r[j]
    ensures multiset(r)[r[i]] >= 2
  {
    assert r == r[..j] + [r[j]] + r[j + 1..];
    assert r[i] in r[..j];
  }

  /** Some enumeration of a finite set. */
  ghost function AnEnumeration(s: set<string>): (ks: seq<string>)
    ensures Enumerates(ks, s)
  {
    if s == {} then [] else
      var k :| k in s;
      [k] + AnEnumeration(s - {k})
  }

  /** A text comes before those it is the beginning of; otherwise the first difference decides. */
  lemma {:induction false} LeqMeans(a: string, b: string)
    ensures Leq(a, b)
            <==> a <= b || exists i :: 0 <= i < |a| && i < |b| && a[..i] == b[..i] && a[i] < b[i]
  {
    if a != [] && b != [] {
      if a[0] == b[0] {
        LeqMeans(a[1..], b[1..]);
        SameHeadDiffers(a, b);
      } else {
        FirstDiffers(a, b);
      }
    }
  }

  lemma FirstDiffers(a: string, b: string)
    requires a != [] && b != [] && a[0] != b[0]
    ensures (exists i :: 0 <= i < |a| && i < |b| && a[..i] == b[..i] && a[i] < b[i]) <==> a[0] < b[0]
  {
    forall i | 0 < i < |a| && i < |b| ensures a[..i] != b[..i] {
      assert a[..i][0] == a[0] && b[..i][0] == b[0];
    }
    if a[0] < b[0] { assert a[..0] == b[..0]; }
  }

  lemma SameHeadDiffers(a: string, b: string)
    requires a != [] && b != [] && a[0] == b[0]
    ensures (exists i :: 0 <= i < |a| && i < |b| && a[..i] == b[..i] && a[i] < b[i])
            <==> exists i :: 0 <= i < |a[1..]| && i < |b[1..]| && a[1..][..i] == b[1..][..i] && a[1..][i] < b[1..][i]
    ensures a <= b <==> a[1..] <= b[1..]
  {
    assert a == [a[0]] + a[1..] && b == [b[0]] + b[1..];
    if i :| 0 <= i < |a| && i < |b| && a[..i] == b[..i] && a[i] < b[i] {
      assert a[1..][..i - 1] == a[..i][1..] && b[1..][..i - 1] == b[..i][1..];
      assert a[1..][i - 1] == a[i] && b[1..][i - 1] == b[i];
    }
    if i :| 0 <= i < |a[1..]| && i < |b[1..]| && a[1..][..i] == b[1..][..i] && a[1..][i] < b[1..][i] {
      assert a[..i + 1] == [a[0]] + a[1..][..i] && b[..i + 1] == [b[0]] + b[1..][..i];
      assert a[i + 1] == a[1..][i] && b[i + 1] == b[1..][i];
    }
  }
}
