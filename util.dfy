/** Sequence helpers shared by the whole model: an Option type standing for a
    JavaScript value that may be `undefined`, `Array.prototype.join`, flattening,
    and the first-occurrence de-duplication that both `_.uniq` and the insertion
    order of a JavaScript object follow. */
module Util {

  datatype Option<+T> = None | Some(value: T)

  /** `xs.join(sep)`: the elements separated by `sep`, nothing for an empty list. */
  function Join(sep: string, xs: seq<string>): string
  {
    if |xs| == 0 then ""
    else if |xs| == 1 then xs[0]
    else xs[0] + sep + Join(sep, xs[1..])
  }

  /** `xs.join('')`, also `_.flatten` one level deep. */
  function Concat<T>(xs: seq<seq<T>>): seq<T>
  {
    if |xs| == 0 then [] else xs[0] + Concat(xs[1..])
  }

  lemma {:induction false} JoinEmptyIff(sep: string, xs: seq<string>)
    requires forall i :: 0 <= i < |xs| ==> xs[i] != ""
    ensures Join(sep, xs) == "" <==> |xs| == 0
  {
    if |xs| > 1 {
      assert |Join(sep, xs)| >= |xs[0]| > 0;
    }
  }

  /** Joining two non-empty lists is joining each and putting one separator
      between them. */
  lemma {:induction false} JoinSplit(sep: string, xs: seq<string>, ys: seq<string>)
    requires |xs| > 0 && |ys| > 0
    ensures Join(sep, xs + ys) == Join(sep, xs) + sep + Join(sep, ys)
  {
    if |xs| == 1 {
      assert (xs + ys)[1..] == ys;
    } else {
      assert (xs + ys)[1..] == xs[1..] + ys;
      JoinSplit(sep, xs[1..], ys);
    }
  }

  /** A prefix one element longer. */
  lemma SnocSlice<T>(s: seq<T>, i: nat)
    requires i < |s|
    ensures s[..i + 1] == s[..i] + [s[i]]
  {
  }

  /** The elements of `s` without repeats, each at the place of its first
      occurrence: element `s[i]` is kept exactly when it does not occur before `i`. */
  function Uniq<T(==)>(s: seq<T>): seq<T>
  {
    if |s| == 0 then []
    else if s[|s| - 1] in s[..|s| - 1] then Uniq(s[..|s| - 1])
    else Uniq(s[..|s| - 1]) + [s[|s| - 1]]
  }

  /** De-duplicating a prefix gives a prefix of the de-duplicated whole. */
  lemma {:induction false} UniqPrefix<T>(s: seq<T>, k: nat)
    requires k <= |s|
    ensures Uniq(s[..k]) <= Uniq(s)
    decreases |s|
  {
    if k < |s| {
      var init := s[..|s| - 1];
      assert init[..k] == s[..k];
      UniqPrefix(init, k);
    } else {
      assert s[..k] == s;
    }
  }

  /** An element of `s` appears in `Uniq(s)` once, after the distinct
      elements that occur before its first occurrence. */
  lemma UniqPosition<T>(s: seq<T>, x: T)
    requires x in s
    ensures var i := |Uniq(s[..FirstIndex(s, x)])|;
            i < |Uniq(s)| && Uniq(s)[i] == x &&
            forall j :: 0 <= j < |Uniq(s)| && j != i ==> Uniq(s)[j] != x
  {
    var f := FirstIndex(s, x);
    var i := |Uniq(s[..f])|;
    assert s[..f + 1] == s[..f] + [x];
    UniqAppend(s[..f], x);
    UniqPrefix(s, f + 1);
    assert Uniq(s)[i] == x;
    UniqDistinct(s);
  }

  lemma UniqDistinct<T>(s: seq<T>)
    ensures NoDups(Uniq(s))
  {
    UniqSpec(s);
  }

  predicate NoDups<T(==)>(s: seq<T>)
  {
    forall i, j :: 0 <= i < j < |s| ==> s[i] != s[j]
  }

  /** The index of the first occurrence of `x` in `s`. */
  function FirstIndex<T(==)>(s: seq<T>, x: T): (k: nat)
    requires x in s
    ensures k < |s| && s[k] == x && x !in s[..k]
  {
    if s[0] == x then 0
    else
      var k := FirstIndex(s[1..], x);
      assert s[..k + 1] == [s[0]] + s[1..][..k];
      k + 1
  }

  /** `_.uniq`: the same elements, each once, in order of first occurrence. */
  lemma {:induction false} UniqSpec<T>(s: seq<T>)
    ensures NoDups(Uniq(s))
    ensures forall x :: x in Uniq(s) <==> x in s
    ensures forall p, q :: 0 <= p < q < |Uniq(s)| ==>
              FirstIndex(s, Uniq(s)[p]) < FirstIndex(s, Uniq(s)[q])
  {
    if |s| > 0 {
      var init := s[..|s| - 1];
      var last := s[|s| - 1];
      assert s == init + [last];
      UniqSpec(init);
      forall x | x in init
        ensures FirstIndex(s, x) == FirstIndex(init, x)
      {
        FirstIndexPrefix(init, [last], x);
      }
      if last !in init {
        var u := Uniq(s);
        assert u == Uniq(init) + [last];
        assert FirstIndex(s, last) == |init|;
        forall p, q | 0 <= p < q < |u|
          ensures FirstIndex(s, u[p]) < FirstIndex(s, u[q])
        {
          assert u[p] == Uniq(init)[p];
          if q < |u| - 1 {
            assert u[q] == Uniq(init)[q];
          }
        }
      }
    }
  }

  lemma {:induction false} FirstIndexPrefix<T>(s: seq<T>, t: seq<T>, x: T)
    requires x in s
    ensures x in s + t && FirstIndex(s + t, x) == FirstIndex(s, x)
  {
    assert (s + t)[FirstIndex(s, x)] == x;
  }

  lemma {:induction false} UniqAppend<T>(s: seq<T>, x: T)
    ensures Uniq(s + [x]) == if x in s then Uniq(s) else Uniq(s) + [x]
  {
    assert (s + [x])[..|s + [x]| - 1] == s;
  }
}
