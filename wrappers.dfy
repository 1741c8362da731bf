/** Ruby's nil, and the generic sequence helpers the Enumerable calls of the source need. */
module Wrappers {

  /** A value that may be absent (Ruby's nil). */
  datatype Option<+T> = None | Some(value: T)
}

module Seqs {

  /** The elements of s that satisfy keep, in their original order: Ruby's
      `select`, and `reject` of the negated condition. */
  function Filter<T>(s: seq<T>, keep: T -> bool): (r: seq<T>)
    ensures |r| <= |s|
    ensures forall i :: 0 <= i < |r| ==> keep(r[i])
    decreases |s|
  {
    if s == [] then []
    else (if keep(s[0]) then [s[0]] else []) + Filter(s[1..], keep)
  }

  /** Filtering keeps exactly the elements that satisfy the condition:
      whatever it returns was in s, and whatever in s satisfies it is
      returned. */
  lemma {:induction false} FilterMembers<T>(s: seq<T>, keep: T -> bool)
    ensures forall i :: 0 <= i < |Filter(s, keep)| ==> Filter(s, keep)[i] in s
    ensures forall i :: 0 <= i < |s| && keep(s[i]) ==> s[i] in Filter(s, keep)
    decreases |s|
  {
    if s != [] {
      var rest := s[1..];
      FilterMembers(rest, keep);
      var head := if keep(s[0]) then [s[0]] else [];
      var r := Filter(s, keep);
      assert r == head + Filter(rest, keep);
      assert forall i :: 0 <= i < |Filter(rest, keep)| ==> Filter(rest, keep)[i] in s by {
        assert forall x :: x in rest ==> x in s;
      }
      assert forall i :: 1 <= i < |s| ==> s[i] == rest[i - 1];
    }
  }

  /** Filtering distributes over concatenation, so a line is kept or dropped
      independently of its neighbours. */
  lemma {:induction false} FilterAppend<T>(s: seq<T>, t: seq<T>, keep: T -> bool)
    ensures Filter(s + t, keep) == Filter(s, keep) + Filter(t, keep)
    decreases |s|
  {
    if s == [] {
      assert s + t == t;
    } else {
      assert (s + t)[1..] == s[1..] + t;
      FilterAppend(s[1..], t, keep);
    }
  }

  /** A sequence is its first element followed by the rest, given
      element by element. */
  lemma ElementwiseCons<T>(l: seq<T>, h: T, t: seq<T>)
    requires |l| == |t| + 1 && l[0] == h
    requires forall i :: 0 <= i < |t| ==> l[i + 1] == t[i]
    ensures l == [h] + t
  {
    assert forall i :: 0 < i < |l| ==> l[i] == t[i - 1];
  }

  lemma FilterCons<T>(a: T, s: seq<T>, keep: T -> bool)
    ensures Filter([a] + s, keep) == (if keep(a) then [a] else []) + Filter(s, keep)
  {
    assert ([a] + s)[1..] == s;
  }
}
