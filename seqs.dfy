/** Order-preserving de-duplication: `list(dict.fromkeys(xs))`, and the
    `seen`-set accumulation of `save_outputs`, keep the first occurrence of
    every element, in order. */
module Seqs {

  predicate Distinct<T(==)>(s: seq<T>) {
    forall i, j :: 0 <= i < j < |s| ==> s[i] != s[j]
  }

  /** The first occurrence of every element of s, in the order of s. Defined
      from the back, as a loop that appends to a list builds it. */
  function Dedup<T(==)>(s: seq<T>): seq<T> {
    if s == [] then []
    else
      var d := Dedup(s[..|s| - 1]);
      if s[|s| - 1] in d then d else d + [s[|s| - 1]]
  }

  /** Position of the first occurrence of x in s. */
  function FirstIndex<T(==)>(s: seq<T>, x: T): (i: nat)
    requires x in s
    ensures i < |s| && s[i] == x && x !in s[..i]
  {
    if s[0] == x then 0 else 1 + FirstIndex(s[1..], x)
  }

  /** Dedup keeps exactly the elements of s. */
  lemma {:induction false} DedupElements<T>(s: seq<T>)
    ensures forall x :: x in Dedup(s) <==> x in s
  {
    if s != [] {
      DedupElements(s[..|s| - 1]);
      assert s == s[..|s| - 1] + [s[|s| - 1]];
    }
  }

  lemma DedupMember<T>(s: seq<T>, a: T)
    requires a in Dedup(s)
    ensures a in s
  {
    DedupElements(s);
  }

  /** Dedup lists each element once. */
  lemma {:induction false} DedupDistinct<T>(s: seq<T>)
    ensures Distinct(Dedup(s))
  {
    if s != [] {
      DedupDistinct(s[..|s| - 1]);
    }
  }

  /** An element added at the end lands at the end of the de-duplicated
      sequence, unless it was already there. */
  lemma DedupSnoc<T>(s: seq<T>, x: T)
    ensures Dedup(s + [x]) == if x in Dedup(s) then Dedup(s) else Dedup(s) + [x]
  {
    assert (s + [x])[..|s + [x]| - 1] == s;
  }

  /** d lists elements of s in the order in which they first occur in s. */
  predicate InFirstOccurrenceOrder<T(==)>(d: seq<T>, s: seq<T>) {
    forall i, j :: 0 <= i < j < |d| ==> d[i] in s && d[j] in s && FirstIndex(s, d[i]) < FirstIndex(s, d[j])
  }

  /** Dedup lists the elements in the order of their first occurrence. */
  lemma {:induction false} DedupFirstOccurrenceOrder<T>(s: seq<T>)
    ensures InFirstOccurrenceOrder(Dedup(s), s)
  {
    if s != [] {
      var s' := s[..|s| - 1];
      var last := s[|s| - 1];
      DedupFirstOccurrenceOrder(s');
      DedupElements(s');
      var d := Dedup(s);
      var d' := Dedup(s');
      assert s == s' + [last];
      assert d == if last in d' then d' else d' + [last];
      forall i, j | 0 <= i < j < |d|
        ensures d[i] in s && d[j] in s && FirstIndex(s, d[i]) < FirstIndex(s, d[j])
      {
        var a := d[i];
        assert a == d'[i] && a in d';
        DedupMember(s', a);
        FirstIndexPrefix(s', [last], a);
        if j < |d'| {
          var b := d[j];
          assert b == d'[j] && b in d';
          DedupMember(s', b);
          FirstIndexPrefix(s', [last], b);
          assert FirstIndex(s', a) < FirstIndex(s', b);
        } else {
          assert d[j] == last && last !in d';
          assert last !in s';
          var k := FirstIndex(s, last);
          assert k == |s| - 1;
        }
      }
      assert InFirstOccurrenceOrder(d, s);
    }
  }

  lemma {:induction false} FirstIndexPrefix<T>(a: seq<T>, b: seq<T>, x: T)
    requires x in a
    ensures x in a + b && FirstIndex(a + b, x) == FirstIndex(a, x)
  {
    if a[0] != x {
      assert (a + b)[1..] == a[1..] + b;
      FirstIndexPrefix(a[1..], b, x);
    }
  }

  /** A sequence without repetitions is its own de-duplication. */
  lemma {:induction false} DedupOfDistinct<T>(s: seq<T>)
    requires Distinct(s)
    ensures Dedup(s) == s
  {
    if s != [] {
      var s' := s[..|s| - 1];
      DedupOfDistinct(s');
      assert s' + [s[|s| - 1]] == s;
    }
  }
}
