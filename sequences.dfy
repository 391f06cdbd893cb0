/** The LINQ operators the modelled code applies to lists: `Where`, `SelectMany`, `Except` and `First`. */
module Sequences {

  /** `Where(p)`: the elements that satisfy `p`, in their order. */
  function Filter<T(!new)>(s: seq<T>, p: T -> bool): (r: seq<T>)
    ensures |r| <= |s|
    ensures forall x :: x in r <==> x in s && p(x)
    ensures r == [] <==> forall x :: x in s ==> !p(x)
    decreases |s|
  {
    if s == [] then []
    else if p(s[0]) then [s[0]] + Filter(s[1..], p)
    else Filter(s[1..], p)
  }

  /** `Where` distributes over concatenation, so it keeps the relative order of the kept elements. */
  lemma {:induction false} FilterAppend<T(!new)>(s: seq<T>, t: seq<T>, p: T -> bool)
    ensures Filter(s + t, p) == Filter(s, p) + Filter(t, p)
    decreases |s|
  {
    if s == [] {
      assert s + t == t;
    } else {
      assert (s + t)[1..] == s[1..] + t;
      FilterAppend(s[1..], t, p);
    }
  }

  /** `SelectMany(x => x)`: the lists one after another. */
  function Flatten<T(!new)>(ss: seq<seq<T>>): (r: seq<T>)
    ensures forall x :: x in r <==> exists i :: 0 <= i < |ss| && x in ss[i]
    decreases |ss|
  {
    if ss == [] then []
    else
      var r := ss[0] + Flatten(ss[1..]);
      assert forall x :: x in r ==> exists i :: 0 <= i < |ss| && x in ss[i] by {
        forall x | x in r ensures exists i :: 0 <= i < |ss| && x in ss[i] {
          if x !in ss[0] {
            var i :| 0 <= i < |ss[1..]| && x in ss[1..][i];
            assert x in ss[i + 1];
          }
        }
      }
      assert forall i, x :: 0 <= i < |ss| && x in ss[i] ==> x in r by {
        forall i, x | 0 <= i < |ss| && x in ss[i] ensures x in r {
          if i > 0 {
            assert x in ss[1..][i - 1];
          }
        }
      }
      r
  }

  /** No element occurs twice. */
  predicate Distinct<T(==)>(s: seq<T>)
  {
    forall i, j :: 0 <= i < j < |s| ==> s[i] != s[j]
  }

  /**
   * `Except(t)`: the elements of `s` that are not in `t`, each once, in the order of
   * their first occurrence in `s`.
   */
  function Except<T(==,!new)>(s: seq<T>, t: seq<T>): (r: seq<T>)
    ensures forall x :: x in r <==> x in s && x !in t
    decreases |s|
  {
    if s == [] then []
    else
      var init, x := s[..|s| - 1], s[|s| - 1];
      assert forall y :: y in s <==> y in init || y == x;
      var p := Except(init, t);
      if x in t || x in init then p else p + [x]
  }

  /** `Except` keeps each element once. */
  lemma {:induction false} ExceptDistinct<T(!new)>(s: seq<T>, t: seq<T>)
    ensures Distinct(Except(s, t))
    decreases |s|
  {
    if s != [] {
      var init, x := s[..|s| - 1], s[|s| - 1];
      ExceptDistinct(init, t);
      var p := Except(init, t);
      if !(x in t || x in init) {
        forall i, j | 0 <= i < j < |p + [x]| ensures (p + [x])[i] != (p + [x])[j] {
          if j == |p| {
            assert (p + [x])[i] == p[i] && p[i] in p;
          } else {
            assert (p + [x])[i] == p[i] && (p + [x])[j] == p[j];
          }
        }
      }
    }
  }

  /** Nothing is left when every element is excluded. */
  lemma ExceptAllExcluded<T(!new)>(s: seq<T>, t: seq<T>)
    requires forall x :: x in s ==> x in t
    ensures Except(s, t) == []
  {
    if Except(s, t) != [] {
      assert Except(s, t)[0] in Except(s, t);
    }
  }

  /** `FirstOrDefault(p)` as an index: the first element satisfying `p`, or `|s|` when none does. */
  function IndexWhere<T>(s: seq<T>, p: T -> bool): (i: nat)
    ensures i <= |s|
    ensures forall j :: 0 <= j < i ==> !p(s[j])
    ensures i < |s| ==> p(s[i])
    decreases |s|
  {
    if s == [] then 0
    else if p(s[0]) then 0
    else 1 + IndexWhere(s[1..], p)
  }
}
