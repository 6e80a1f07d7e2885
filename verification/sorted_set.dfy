/**
 * An ordered set of reals, the model of `std::set<double>`: a sequence kept
 * strictly ascending, so that it holds each value once and iterates in order.
 */
module SortedSet {

  /** Ascending with no repeated value. */
  predicate StrictlyIncreasing(s: seq<real>) {
    // instantiated only for the pairs a proof names, so that the solver does
    // not compare every two elements it has seen
    forall i, j {:trigger Ordered(s, i, j)} :: 0 <= i < j < |s| ==> Ordered(s, i, j)
  }

  /** The elements at positions `i` and `j` are in strictly ascending order. */
  predicate Ordered(s: seq<real>, i: int, j: int) {
    0 <= i < |s| && 0 <= j < |s| && s[i] < s[j]
  }

  /** The values held. */
  function Elements(s: seq<real>): set<real> {
    set x | x in s
  }

  lemma ElementsEmpty(s: seq<real>)
    ensures Elements(s) == {} <==> |s| == 0
  {
    if |s| != 0 {
      assert s[0] in Elements(s);
    }
  }

  lemma ElementsCons(a: real, s: seq<real>)
    ensures Elements([a] + s) == {a} + Elements(s)
  {
    assert forall x :: x in [a] + s <==> x == a || x in s;
  }

  /** Putting a value below every element in front keeps the order strict. */
  lemma ConsIncreasing(a: real, s: seq<real>)
    requires StrictlyIncreasing(s)
    requires forall y :: y in Elements(s) ==> a < y
    ensures StrictlyIncreasing([a] + s)
  {
    forall i, j | 0 <= i < j < |[a] + s| ensures Ordered([a] + s, i, j) {
      if i == 0 {
        assert ([a] + s)[j] == s[j - 1] && s[j - 1] in Elements(s);
      } else {
        assert Ordered(s, i - 1, j - 1);
      }
    }
  }

  /**
   * `std::set::insert`: adds `x` at its place in the order, unless it is
   * already held.
   */
  function Insert(s: seq<real>, x: real): (r: seq<real>)
    requires StrictlyIncreasing(s)
    ensures StrictlyIncreasing(r)
    ensures Elements(r) == Elements(s) + {x}
    ensures x in s ==> r == s
    ensures x !in s ==> |r| == |s| + 1
    decreases |s|, 1
  {
    if |s| == 0 then
      ElementsCons(x, []);
      [x]
    else if x < s[0] then
      ElementsCons(x, s);
      HeadAndTail(s);
      ConsIncreasing(x, s);
      [x] + s
    else if x == s[0] then s
    else
      InsertAfterHead(s, x);
      [s[0]] + Insert(s[1..], x)
  }

  /** The recursive case of `Insert`: `x` goes after the head. */
  lemma InsertAfterHead(s: seq<real>, x: real)
    requires StrictlyIncreasing(s) && |s| > 0 && s[0] < x
    ensures StrictlyIncreasing(s[1..])
    ensures var r := [s[0]] + Insert(s[1..], x);
      && StrictlyIncreasing(r)
      && Elements(r) == Elements(s) + {x}
      && (x in s ==> r == s)
      && (x !in s ==> |r| == |s| + 1)
    decreases |s|, 0
  {
    HeadAndTail(s);
    var rest := Insert(s[1..], x);
    ElementsCons(s[0], rest);
    ConsIncreasing(s[0], rest);
    assert x in s <==> x in Elements(s);
    if x in s[1..] {
      assert [s[0]] + s[1..] == s;
    }
  }

  /** The tail of an ascending sequence is ascending and lies above its head. */
  lemma HeadAndTail(s: seq<real>)
    requires StrictlyIncreasing(s) && |s| > 0
    ensures StrictlyIncreasing(s[1..])
    ensures forall y :: y in Elements(s[1..]) ==> s[0] < y
    ensures Elements(s) == {s[0]} + Elements(s[1..])
  {
    var tail := s[1..];
    assert s == [s[0]] + tail;
    forall i, j | 0 <= i < j < |tail| ensures Ordered(tail, i, j) {
      assert Ordered(s, i + 1, j + 1);
      assert tail[i] == s[i + 1] && tail[j] == s[j + 1];
    }
    forall y | y in Elements(tail) ensures s[0] < y {
      var i :| 0 <= i < |tail| && tail[i] == y;
      assert Ordered(s, 0, i + 1);
      assert s[i + 1] == y;
    }
    ElementsCons(s[0], tail);
  }

  /** A strictly ascending sequence is determined by the values it holds. */
  lemma {:induction false} SameElementsSameSequence(s: seq<real>, t: seq<real>)
    requires StrictlyIncreasing(s) && StrictlyIncreasing(t)
    requires Elements(s) == Elements(t)
    ensures s == t
  {
    ElementsEmpty(s);
    ElementsEmpty(t);
    if |s| != 0 && |t| != 0 {
      HeadAndTail(s);
      HeadAndTail(t);
      // both heads are the least value held
      assert s[0] in Elements(t) && t[0] in Elements(s);
      assert s[0] == t[0];
      assert s[0] !in Elements(s[1..]) && t[0] !in Elements(t[1..]);
      assert Elements(s[1..]) == Elements(t[1..]);
      SameElementsSameSequence(s[1..], t[1..]);
      assert s == [s[0]] + s[1..] && t == [t[0]] + t[1..];
    }
  }
}
