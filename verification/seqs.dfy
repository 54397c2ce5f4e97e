/** The JavaScript array operations the application relies on (`filter`,
    `find`, `some`), written once over sequences, with the facts about them
    that the rest of the model needs. */
module Seqs {
  import opened Wrappers

  /** `Array.prototype.filter`: the elements of `s` that satisfy `p`, in
      their original order. */
  function Filter<T>(s: seq<T>, p: T -> bool): (r: seq<T>)
    ensures |r| <= |s|
    ensures forall i :: 0 <= i < |r| ==> r[i] in s && p(r[i])
    ensures forall i :: 0 <= i < |s| && p(s[i]) ==> s[i] in r
  {
    if |s| == 0 then [] else (if p(s[0]) then [s[0]] else []) + Filter(s[1..], p)
  }

  /** Filtering distributes over concatenation, so the relative order of the
      kept elements is the order of `s`. */
  lemma {:induction false} FilterAppend<T>(a: seq<T>, b: seq<T>, p: T -> bool)
    ensures Filter(a + b, p) == Filter(a, p) + Filter(b, p)
  {
    if |a| == 0 {
      assert a + b == b;
    } else {
      assert (a + b)[1..] == a[1..] + b;
      FilterAppend(a[1..], b, p);
    }
  }

  /** A filter keeps every element exactly when every element satisfies the
      predicate. */
  lemma {:induction false} FilterKeepsAll<T>(s: seq<T>, p: T -> bool)
    ensures |Filter(s, p)| == |s| <==> forall i :: 0 <= i < |s| ==> p(s[i])
  {
    if |s| > 0 {
      FilterKeepsAll(s[1..], p);
      if !p(s[0]) {
        assert |Filter(s, p)| == |Filter(s[1..], p)| <= |s| - 1;
      } else {
        assert forall i :: 1 <= i < |s| ==> s[i] == s[1..][i - 1];
      }
    }
  }

  /** A filter that no element passes is empty. */
  lemma {:induction false} FilterNone<T>(s: seq<T>, p: T -> bool)
    requires forall i :: 0 <= i < |s| ==> !p(s[i])
    ensures Filter(s, p) == []
  {
    if |s| > 0 {
      FilterNone(s[1..], p);
    }
  }

  /** A weaker predicate keeps at least as many elements, and strictly
      more when it keeps one the stronger predicate drops. */
  lemma {:induction false} FilterGrows<T>(s: seq<T>, p: T -> bool, q: T -> bool)
    requires forall i :: 0 <= i < |s| && p(s[i]) ==> q(s[i])
    ensures |Filter(s, p)| <= |Filter(s, q)|
    ensures (exists i :: 0 <= i < |s| && q(s[i]) && !p(s[i])) ==> |Filter(s, p)| < |Filter(s, q)|
  {
    if |s| > 0 {
      assert forall i :: 0 <= i < |s[1..]| ==> s[1..][i] == s[i + 1];
      FilterGrows(s[1..], p, q);
      if exists i :: 0 <= i < |s| && q(s[i]) && !p(s[i]) {
        var i :| 0 <= i < |s| && q(s[i]) && !p(s[i]);
        if i > 0 {
          assert q(s[1..][i - 1]) && !p(s[1..][i - 1]);
        }
      }
    }
  }

  /** Two filters that agree position by position keep as many
      elements. */
  lemma {:induction false} FilterLengthAgrees<A, B>(a: seq<A>, p: A -> bool, b: seq<B>, q: B -> bool)
    requires |a| == |b|
    requires forall i :: 0 <= i < |a| ==> (p(a[i]) <==> q(b[i]))
    ensures |Filter(a, p)| == |Filter(b, q)|
  {
    if |a| > 0 {
      assert forall i :: 0 <= i < |a[1..]| ==> a[1..][i] == a[i + 1] && b[1..][i] == b[i + 1];
      FilterLengthAgrees(a[1..], p, b[1..], q);
    }
  }

  /** `Array.prototype.some`: whether some element satisfies `p`. */
  function Any<T>(s: seq<T>, p: T -> bool): (b: bool)
    ensures b <==> exists i :: 0 <= i < |s| && p(s[i])
  {
    if |s| == 0 then false
    else if p(s[0]) then true
    else
      var rest := Any(s[1..], p);
      assert rest <==> exists i :: 1 <= i < |s| && p(s[i]) by {
        if rest {
          var i :| 0 <= i < |s[1..]| && p(s[1..][i]);
          assert p(s[i + 1]);
        }
        if exists i :: 1 <= i < |s| && p(s[i]) {
          var i :| 1 <= i < |s| && p(s[i]);
          assert s[1..][i - 1] == s[i];
        }
      }
      rest
  }

  /** `Array.prototype.find`: the first element satisfying `p`, or None. */
  function Find<T>(s: seq<T>, p: T -> bool): (r: Option<T>)
    ensures r.None? <==> forall i :: 0 <= i < |s| ==> !p(s[i])
    ensures r.Some? ==> exists i :: 0 <= i < |s| && s[i] == r.value && p(s[i])
                                    && forall j :: 0 <= j < i ==> !p(s[j])
  {
    if |s| == 0 then None
    else if p(s[0]) then Some(s[0])
    else
      var r := Find(s[1..], p);
      assert r.Some? ==> exists i :: 1 <= i < |s| && s[i] == r.value && p(s[i])
                                     && forall j :: 0 <= j < i ==> !p(s[j]) by {
        if r.Some? {
          var k :| 0 <= k < |s[1..]| && s[1..][k] == r.value && p(s[1..][k])
                   && forall j :: 0 <= j < k ==> !p(s[1..][j]);
          assert forall j :: 1 <= j < k + 1 ==> s[j] == s[1..][j - 1];
          assert s[k + 1] == r.value;
        }
      }
      r
  }

  /** No element occurs twice. */
  predicate Distinct<T(==)>(s: seq<T>) {
    forall i, j :: 0 <= i < j < |s| ==> s[i] != s[j]
  }

  /** The set of elements of a sequence. */
  function Elems<T>(s: seq<T>): set<T> {
    set x | x in s
  }

  /** A sequence has at least as many positions as distinct elements. */
  lemma {:induction false} ElemsCard<T>(s: seq<T>)
    ensures |Elems(s)| <= |s|
  {
    if |s| > 0 {
      ElemsCard(s[1..]);
      assert Elems(s) == {s[0]} + Elems(s[1..]);
    }
  }

  /** A duplicate-free sequence has exactly as many distinct elements as
      positions. */
  lemma {:induction false} DistinctElemsCard<T>(s: seq<T>)
    requires Distinct(s)
    ensures |Elems(s)| == |s|
  {
    if |s| > 0 {
      assert Distinct(s[1..]) by {
        forall i, j | 0 <= i < j < |s[1..]| ensures s[1..][i] != s[1..][j] {
          assert s[1..][i] == s[i + 1] && s[1..][j] == s[j + 1];
        }
      }
      DistinctElemsCard(s[1..]);
      assert s[0] !in Elems(s[1..]);
      assert Elems(s) == {s[0]} + Elems(s[1..]);
    }
  }

  /** A finite set included in another of the same size is that set. */
  lemma SubsetSameCard<T>(a: set<T>, b: set<T>)
    requires a <= b && |a| == |b|
    ensures a == b
  {
    assert |b - a| == |b| - |a|;
  }
}
