/** Array#uniq over the string arrays of sleat-analyze.rb: drop repeats, keep each first occurrence. */
module Dedup {

  predicate NoDuplicates(s: seq<string>) {
    forall i, j :: 0 <= i < j < |s| ==> s[i] != s[j]
  }

  /** Position of the first occurrence of `x` in `s`. */
  function FirstIndexOf(s: seq<string>, x: string): (k: nat)
    requires x in s
    ensures k < |s| && s[k] == x && x !in s[..k]
  {
    if s[0] == x then 0 else FirstIndexOf(s[1..], x) + 1
  }

  /** `s.uniq` */
  function Uniq(s: seq<string>): (r: seq<string>)
    ensures NoDuplicates(r)
    ensures forall x :: x in r <==> x in s
    ensures |r| <= |s|
  {
    if s == [] then []
    else
      var init := s[..|s| - 1];
      var d := Uniq(init);
      var last := s[|s| - 1];
      assert s == init + [last];
      if last in d then d else d + [last]
  }

  /** Appending one element grows the result by that element exactly when it is new. */
  lemma UniqSnoc(s: seq<string>, x: string)
    ensures Uniq(s + [x]) == if x in s then Uniq(s) else Uniq(s) + [x]
    ensures |Uniq(s + [x])| == |Uniq(s)| + (if x in s then 0 else 1)
  {
    assert (s + [x])[..|s|] == s;
  }

  /** Appending elements that were already there leaves the result unchanged. */
  lemma {:induction false} UniqAbsorbsSeen(s: seq<string>, t: seq<string>)
    requires forall x :: x in t ==> x in s
    ensures Uniq(s + t) == Uniq(s)
    decreases |t|
  {
    if t != [] {
      var init, last := t[..|t| - 1], t[|t| - 1];
      assert t == init + [last];
      UniqAbsorbsSeen(s, init);
      assert s + t == (s + init) + [last];
      assert last in s + init;
      UniqSnoc(s + init, last);
    } else {
      assert s + t == s;
    }
  }

  lemma FirstIndexInPrefix(s: seq<string>, t: seq<string>, x: string)
    requires x in s
    ensures FirstIndexOf(s + t, x) == FirstIndexOf(s, x)
  {
    var k := FirstIndexOf(s, x);
    assert (s + t)[k] == x;
    assert (s + t)[..k] == s[..k];
  }

  /** The result lists the elements in the order of their first occurrence. */
  lemma {:induction false} UniqKeepsFirstOccurrenceOrder(s: seq<string>)
    ensures forall i, j :: 0 <= i < j < |Uniq(s)| ==> FirstIndexOf(s, Uniq(s)[i]) < FirstIndexOf(s, Uniq(s)[j])
  {
    if s != [] {
      var init := s[..|s| - 1];
      var last := s[|s| - 1];
      assert s == init + [last];
      UniqKeepsFirstOccurrenceOrder(init);
      var d := Uniq(init);
      forall y | y in d ensures FirstIndexOf(s, y) == FirstIndexOf(init, y) && FirstIndexOf(s, y) < |init| {
        FirstIndexInPrefix(init, [last], y);
      }
      if last !in d {
        assert last !in init;
        assert s[..|init|] == init;
        assert FirstIndexOf(s, last) == |init|;
      }
    }
  }
}
