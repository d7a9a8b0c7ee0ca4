/** Order-preserving selection from a sequence, the operation behind both
    `Array.prototype.filter` in unregistration and the `forEach`/`if` walk
    that picks the hooks a focus action fires. */
module Seqs {

  /** The elements of `s` that satisfy `p`, in their original order. */
  function Filter<T>(s: seq<T>, p: T -> bool): (r: seq<T>)
    ensures |r| <= |s|
    ensures forall x :: x in r ==> x in s && p(x)
    ensures forall x :: x in s && p(x) ==> x in r
  {
    if s == [] then []
    else if p(s[0]) then [s[0]] + Filter(s[1..], p)
    else Filter(s[1..], p)
  }

  /** The positions in `ps` strictly increase. */
  ghost predicate Increasing(ps: seq<int>) {
    forall i, j :: 0 <= i < j < |ps| ==> ps[i] < ps[j]
  }

  /** Every entry of `ps` is a position of `s` satisfying `p`, and `r` holds the
      elements found at those positions. */
  ghost predicate PicksAt<T>(s: seq<T>, p: T -> bool, ps: seq<int>, r: seq<T>) {
    && |ps| == |r|
    && forall j :: 0 <= j < |ps| ==> 0 <= ps[j] < |s| && p(s[ps[j]]) && r[j] == s[ps[j]]
  }

  /** Every position of `s` satisfying `p` occurs in `ps`. */
  ghost predicate Covers<T>(s: seq<T>, p: T -> bool, ps: seq<int>) {
    forall i :: 0 <= i < |s| && p(s[i]) ==> i in ps
  }

  /** `ps` lists, in increasing order, exactly the positions of `s` whose element
      satisfies `p`, and `r` holds the elements found at those positions. */
  ghost predicate SelectedAt<T>(s: seq<T>, p: T -> bool, ps: seq<int>, r: seq<T>) {
    Increasing(ps) && PicksAt(s, p, ps, r) && Covers(s, p, ps)
  }

  /** Every position moved by `d`. */
  function Shift(ps: seq<int>, d: int): seq<int> {
    seq(|ps|, j requires 0 <= j < |ps| => ps[j] + d)
  }

  /** Shift's length and elements, for the proofs below. */
  lemma ShiftAt(ps: seq<int>, d: int)
    ensures |Shift(ps, d)| == |ps|
    ensures forall j :: 0 <= j < |ps| ==> Shift(ps, d)[j] == ps[j] + d
  {
  }

  /** Filter keeps every selected element exactly once, at the place it had in `s`. */
  lemma {:induction false} FilterSelectsInOrder<T>(s: seq<T>, p: T -> bool) returns (ps: seq<int>)
    ensures SelectedAt(s, p, ps, Filter(s, p))
  {
    if s == [] {
      ps := [];
    } else {
      var qs := FilterSelectsInOrder(s[1..], p);
      ShiftAt(qs, 1);
      if p(s[0]) {
        ps := [0] + Shift(qs, 1);
        SelectedAtKeepHead(s, p, qs, Filter(s[1..], p));
      } else {
        ps := Shift(qs, 1);
        SelectedAtSkipHead(s, p, qs, Filter(s[1..], p));
      }
    }
  }

  /** A selection from the tail, moved one place right, selects from the whole
      sequence when the head is not selected. */
  lemma SelectedAtSkipHead<T>(s: seq<T>, p: T -> bool, qs: seq<int>, r: seq<T>)
    requires s != [] && !p(s[0])
    requires SelectedAt(s[1..], p, qs, r)
    ensures SelectedAt(s, p, Shift(qs, 1), r)
  {
    SkipHeadPicks(s, p, qs, r);
    SkipHeadCovers(s, p, qs);
    ShiftAt(qs, 1);
  }

  /** The element-picking half of SelectedAtSkipHead. */
  lemma SkipHeadPicks<T>(s: seq<T>, p: T -> bool, qs: seq<int>, r: seq<T>)
    requires s != []
    requires PicksAt(s[1..], p, qs, r)
    ensures PicksAt(s, p, Shift(qs, 1), r)
  {
    var t := s[1..];
    ShiftAt(qs, 1);
    var ps := Shift(qs, 1);
    forall j | 0 <= j < |ps|
      ensures 0 <= ps[j] < |s| && p(s[ps[j]]) && r[j] == s[ps[j]]
    {
      assert t[qs[j]] == s[qs[j] + 1];
    }
  }

  /** The coverage half of SelectedAtSkipHead. */
  lemma SkipHeadCovers<T>(s: seq<T>, p: T -> bool, qs: seq<int>)
    requires s != [] && !p(s[0])
    requires Covers(s[1..], p, qs)
    ensures Covers(s, p, Shift(qs, 1))
  {
    var t := s[1..];
    ShiftAt(qs, 1);
    var ps := Shift(qs, 1);
    forall i | 0 <= i < |s| && p(s[i])
      ensures i in ps
    {
      assert i != 0;
      assert t[i - 1] == s[i];
      var j :| 0 <= j < |qs| && qs[j] == i - 1;
      assert ps[j] == i;
    }
  }

  /** A selection from the tail, moved one place right and preceded by position
      0, selects from the whole sequence when the head is selected. */
  lemma SelectedAtKeepHead<T>(s: seq<T>, p: T -> bool, qs: seq<int>, r: seq<T>)
    requires s != [] && p(s[0])
    requires SelectedAt(s[1..], p, qs, r)
    ensures SelectedAt(s, p, [0] + Shift(qs, 1), [s[0]] + r)
  {
    KeepHeadPicks(s, p, qs, r);
    KeepHeadCovers(s, p, qs);
    KeepHeadIncreasing(s[1..], p, qs, r);
  }

  /** The element-picking half of SelectedAtKeepHead. */
  lemma KeepHeadPicks<T>(s: seq<T>, p: T -> bool, qs: seq<int>, r: seq<T>)
    requires s != [] && p(s[0])
    requires PicksAt(s[1..], p, qs, r)
    ensures PicksAt(s, p, [0] + Shift(qs, 1), [s[0]] + r)
  {
    var t := s[1..];
    ShiftAt(qs, 1);
    var ps := [0] + Shift(qs, 1);
    var r' := [s[0]] + r;
    forall j | 0 < j < |ps|
      ensures 0 <= ps[j] < |s| && p(s[ps[j]]) && r'[j] == s[ps[j]]
    {
      assert ps[j] == qs[j - 1] + 1;
      assert r'[j] == r[j - 1];
      assert t[qs[j - 1]] == s[qs[j - 1] + 1];
    }
  }

  /** The coverage half of SelectedAtKeepHead. */
  lemma KeepHeadCovers<T>(s: seq<T>, p: T -> bool, qs: seq<int>)
    requires s != []
    requires Covers(s[1..], p, qs)
    ensures Covers(s, p, [0] + Shift(qs, 1))
  {
    var t := s[1..];
    ShiftAt(qs, 1);
    var ps := [0] + Shift(qs, 1);
    forall i | 0 < i < |s| && p(s[i])
      ensures i in ps
    {
      assert t[i - 1] == s[i];
      var j :| 0 <= j < |qs| && qs[j] == i - 1;
      assert ps[j + 1] == i;
    }
    assert ps[0] == 0;
  }

  /** The ordering half of SelectedAtKeepHead. */
  lemma KeepHeadIncreasing<T>(t: seq<T>, p: T -> bool, qs: seq<int>, r: seq<T>)
    requires Increasing(qs) && PicksAt(t, p, qs, r)
    ensures Increasing([0] + Shift(qs, 1))
  {
    ShiftAt(qs, 1);
    var sq := Shift(qs, 1);
    var ps := [0] + sq;
    forall i, j | 0 <= i < j < |ps|
      ensures ps[i] < ps[j]
    {
      assert ps[j] == sq[j - 1];
      if i > 0 {
        assert ps[i] == sq[i - 1];
      }
    }
  }

  /** The tail of a selection whose first position is 0. */
  lemma SelectedAtTail<T>(s: seq<T>, p: T -> bool, ps: seq<int>, r: seq<T>)
    requires s != [] && |ps| > 0 && ps[0] == 0
    requires SelectedAt(s, p, ps, r)
    ensures SelectedAt(s[1..], p, Shift(ps[1..], -1), r[1..])
  {
    var t := s[1..];
    ShiftAt(ps[1..], -1);
    var qs := Shift(ps[1..], -1);
    forall j | 0 <= j < |qs|
      ensures 0 <= qs[j] < |t| && p(t[qs[j]]) && r[1..][j] == t[qs[j]]
    {
      assert ps[0] < ps[j + 1];
    }
    forall i | 0 <= i < |t| && p(t[i])
      ensures i in qs
    {
      assert s[i + 1] == t[i];
      var m :| 0 <= m < |ps| && ps[m] == i + 1;
      assert m != 0;
      assert qs[m - 1] == i;
    }
  }

  /** A selection that does not use position 0 is a selection from the tail. */
  lemma SelectedAtSkip<T>(s: seq<T>, p: T -> bool, ps: seq<int>, r: seq<T>)
    requires s != [] && !p(s[0])
    requires SelectedAt(s, p, ps, r)
    ensures SelectedAt(s[1..], p, Shift(ps, -1), r)
  {
    var t := s[1..];
    ShiftAt(ps, -1);
    var qs := Shift(ps, -1);
    forall j | 0 <= j < |qs|
      ensures 0 <= qs[j] < |t| && p(t[qs[j]]) && r[j] == t[qs[j]]
    {
      assert ps[j] != 0;
    }
    forall i | 0 <= i < |t| && p(t[i])
      ensures i in qs
    {
      assert s[i + 1] == t[i];
      var m :| 0 <= m < |ps| && ps[m] == i + 1;
      assert qs[m] == i;
    }
  }

  /** Filter selects nothing when no element satisfies `p`. */
  lemma {:induction false} FilterKeepsNone<T>(s: seq<T>, p: T -> bool)
    requires forall i :: 0 <= i < |s| ==> !p(s[i])
    ensures Filter(s, p) == []
  {
    if s != [] {
      FilterKeepsNone(s[1..], p);
    }
  }

  /** Conversely, any increasing enumeration of exactly the selected positions
      picks out the same sequence Filter computes: the selection is unique. */
  lemma {:induction false} SelectedAtUnique<T>(s: seq<T>, p: T -> bool, ps: seq<int>, r: seq<T>)
    requires SelectedAt(s, p, ps, r)
    ensures r == Filter(s, p)
    decreases |s|
  {
    if ps == [] {
      FilterKeepsNone(s, p);
    } else {
      assert s != [] by {
        assert 0 <= ps[0] < |s|;
      }
      if p(s[0]) {
        assert 0 in ps;
        var k :| 0 <= k < |ps| && ps[k] == 0;
        assert ps[0] <= ps[k];
        SelectedAtTail(s, p, ps, r);
        SelectedAtUnique(s[1..], p, Shift(ps[1..], -1), r[1..]);
        assert r == [r[0]] + r[1..];
      } else {
        SelectedAtSkip(s, p, ps, r);
        SelectedAtUnique(s[1..], p, Shift(ps, -1), r);
      }
    }
  }

  /** Selection distributes over concatenation. */
  lemma {:induction false} FilterAppend<T>(a: seq<T>, b: seq<T>, p: T -> bool)
    ensures Filter(a + b, p) == Filter(a, p) + Filter(b, p)
  {
    if a == [] {
      assert a + b == b;
    } else {
      assert (a + b)[1..] == a[1..] + b;
      FilterAppend(a[1..], b, p);
    }
  }

  /** Selecting by `q` after selecting by a weaker `p` is selecting by `q` alone;
      with `q == p` this is idempotence. */
  lemma {:induction false} FilterOfFilter<T>(s: seq<T>, p: T -> bool, q: T -> bool)
    requires forall x :: q(x) ==> p(x)
    ensures Filter(Filter(s, p), q) == Filter(s, q)
  {
    if s != [] {
      FilterOfFilter(s[1..], p, q);
    }
  }

  /** Filter changes nothing when every element is selected. */
  lemma {:induction false} FilterKeepsAll<T>(s: seq<T>, p: T -> bool)
    requires forall i :: 0 <= i < |s| ==> p(s[i])
    ensures Filter(s, p) == s
  {
    if s != [] {
      FilterKeepsAll(s[1..], p);
    }
  }

  /** A predicate and its complement split a sequence: the two selections
      together are as long as the sequence. */
  lemma {:induction false} FilterPartition<T>(s: seq<T>, p: T -> bool, q: T -> bool)
    requires forall x :: q(x) <==> !p(x)
    ensures |Filter(s, p)| + |Filter(s, q)| == |s|
  {
    if s != [] {
      FilterPartition(s[1..], p, q);
    }
  }

  /** A predicate and its complement split a sequence element for element:
      the two selections together hold every element as often as `s` does. */
  lemma {:induction false} FilterMultisetPartition<T>(s: seq<T>, p: T -> bool, q: T -> bool)
    requires forall x :: q(x) <==> !p(x)
    ensures multiset(Filter(s, p)) + multiset(Filter(s, q)) == multiset(s)
  {
    if s != [] {
      var t := s[1..];
      FilterMultisetPartition(t, p, q);
      assert s == [s[0]] + t;
      assert multiset(s) == multiset{s[0]} + multiset(t);
      if p(s[0]) {
        assert Filter(s, p) == [s[0]] + Filter(t, p);
        assert Filter(s, q) == Filter(t, q);
        assert multiset(Filter(s, p)) == multiset{s[0]} + multiset(Filter(t, p));
      } else {
        assert Filter(s, p) == Filter(t, p);
        assert Filter(s, q) == [s[0]] + Filter(t, q);
        assert multiset(Filter(s, q)) == multiset{s[0]} + multiset(Filter(t, q));
      }
    }
  }

  /** An increasing sequence has as many distinct elements as it is long. */
  lemma {:induction false} IncreasingCard(ps: seq<int>)
    requires Increasing(ps)
    ensures |set x | x in ps| == |ps|
  {
    if ps != [] {
      var rest := ps[1..];
      IncreasingCard(rest);
      assert (set x | x in ps) == {ps[0]} + (set x | x in rest);
      assert ps[0] !in rest by {
        forall j | 0 <= j < |rest|
          ensures rest[j] != ps[0]
        {
          assert ps[0] < ps[j + 1];
        }
      }
    }
  }

  /** The positions of `s` whose element satisfies `p`. */
  function Positions<T>(s: seq<T>, p: T -> bool): set<int> {
    set i | 0 <= i < |s| && p(s[i])
  }

  /** Filter keeps exactly as many elements as `s` has positions satisfying `p`. */
  lemma FilterLength<T>(s: seq<T>, p: T -> bool)
    ensures |Filter(s, p)| == |Positions(s, p)|
  {
    var ps := FilterSelectsInOrder(s, p);
    IncreasingCard(ps);
    assert (set x | x in ps) == Positions(s, p);
  }
}
