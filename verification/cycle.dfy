/** A round robin over a list. Elements marked as eliminated are skipped when
    the cursor advances and are only removed from the list when the cursor
    wraps around; on each wrap the list is also rotated by a fixed distance. */
module Cycles {
  import opened Wrappers

  datatype Cycle<E> = Cycle(elements: seq<E>, rotation: int, position: nat, eliminations: set<E>)

  /** A cycle over a copy of `elements`, cursor at the start, nothing marked. */
  function Of<E>(elements: seq<E>, rotation: int): (c: Cycle<E>)
    ensures c.elements == elements && c.rotation == rotation
    ensures c.position == 0 && c.eliminations == {}
    ensures elements != [] ==> Current(c) == Some(elements[0])
  {
    Cycle(elements, rotation, 0, {})
  }

  /** The element under the cursor; a cursor past the end has none. */
  function Current<E>(c: Cycle<E>): (r: Option<E>)
    ensures r.Some? <==> c.position < |c.elements|
    ensures r.Some? ==> r.value == c.elements[c.position]
  {
    if c.position < |c.elements| then Some(c.elements[c.position]) else None
  }

  /** The cursor is on an element, or the list is empty. */
  predicate Valid<E>(c: Cycle<E>)
  {
    c.elements == [] || c.position < |c.elements|
  }

  /** Every element of the list is marked (`containsAll`); true of the empty list. */
  predicate AllMarked<E>(c: Cycle<E>)
  {
    forall i | 0 <= i < |c.elements| :: c.elements[i] in c.eliminations
  }

  /** `Collections.rotate`: the element at index i moves to index (i + d) mod n. */
  function Rotate<E>(s: seq<E>, d: int): (r: seq<E>)
    ensures |r| == |s|
    ensures forall i | 0 <= i < |s| :: r[(i + d) % |s|] == s[i]
  {
    if |s| == 0 then s
    else
      var r := seq(|s|, j requires 0 <= j < |s| => s[(j - d) % |s|]);
      forall i | 0 <= i < |s|
        ensures r[(i + d) % |s|] == s[i]
      {
        ShiftBack(i, d, |s|);
      }
      r
  }

  lemma ShiftBack(i: int, d: int, n: int)
    requires 0 <= i < n
    ensures ((i + d) % n - d) % n == i
  {
    var q := (i + d) / n;
    ModUnique(i + d, n, q, (i + d) % n);
    ModUnique((i + d) % n - d, n, -q, i);
  }

  /** The remainder is the only one in range: a == n * q + r with 0 <= r < n fixes r. */
  lemma ModUnique(a: int, n: int, q: int, r: int)
    requires 0 <= r < n && a == n * q + r
    ensures a % n == r && a / n == q
  {
    var q', r' := a / n, a % n;
    assert n * q' + r' == n * q + r;
    var m := q - q';
    assert n * m == r' - r by {
      assert n * q - n * q' == n * (q - q');
    }
  }

  /** With distance -1 the first element moves to the end. */
  lemma RotateBackOne<E>(s: seq<E>)
    requires |s| > 0
    ensures Rotate(s, -1) == s[1..] + [s[0]]
  {
    var n := |s|;
    var r := Rotate(s, -1);
    var t := s[1..] + [s[0]];
    forall j | 0 <= j < n
      ensures r[j] == t[j]
    {
      if j + 1 < n {
        ModUnique(j + 1 + -1, n, 0, j);
        assert r[(j + 1 + -1) % n] == s[j + 1];
      } else {
        ModUnique(0 + -1, n, -1, n - 1);
        assert r[(0 + -1) % n] == s[0];
      }
    }
  }

  /** `removeAll`: the elements of `s` that are not marked, in their order. */
  function RemoveAll<E>(s: seq<E>, marks: set<E>): (r: seq<E>)
    ensures |r| <= |s|
    ensures forall i | 0 <= i < |r| :: r[i] in s && r[i] !in marks
    ensures forall i | 0 <= i < |s| && s[i] !in marks :: s[i] in r
    decreases |s|
  {
    if s == [] then []
    else if s[0] in marks then RemoveAll(s[1..], marks)
    else [s[0]] + RemoveAll(s[1..], marks)
  }

  /** `removeAll` is a filter: it keeps a single element exactly when it is
      not marked, and it works on a list piece by piece, so the elements it
      keeps stay in their order, repeats included. */
  lemma {:induction false} RemoveAllFilters<E>(a: seq<E>, b: seq<E>, marks: set<E>)
    ensures RemoveAll(a + b, marks) == RemoveAll(a, marks) + RemoveAll(b, marks)
    ensures |a| == 1 ==> RemoveAll(a, marks) == (if a[0] in marks then [] else a)
    decreases |a|
  {
    if a == [] {
      assert a + b == b;
    } else {
      assert (a + b)[1..] == a[1..] + b;
      RemoveAllFilters(a[1..], b, marks);
      if |a| == 1 {
        assert a[1..] == [];
      }
    }
  }

  /** The do-while loop of `advance`: step once, then keep stepping while the
      cursor is on a marked element. */
  function Skip<E>(elements: seq<E>, marks: set<E>, position: nat): (r: nat)
    ensures r > position
    ensures r < |elements| ==> elements[r] !in marks
    ensures forall k | position < k < r && k < |elements| :: elements[k] in marks
    ensures position < |elements| ==> r <= |elements|
    decreases |elements| - position
  {
    var next := position + 1;
    if next < |elements| && elements[next] in marks then Skip(elements, marks, next) else next
  }

  /** Move the cursor on to the next unmarked element. When every element is
      marked nothing happens; when the cursor runs off the end it goes back to
      the start, and the list is rotated and loses its marked elements. */
  function Advance<E>(c: Cycle<E>): (r: Cycle<E>)
    ensures r.rotation == c.rotation && r.eliminations == c.eliminations
    ensures AllMarked(c) ==> r == c
  {
    if AllMarked(c) then c
    else
      var p := Skip(c.elements, c.eliminations, c.position);
      if p == |c.elements| then
        c.(position := 0, elements := RemoveAll(Rotate(c.elements, c.rotation), c.eliminations))
      else c.(position := p)
  }

  /** Wraps in `Advance`: no unmarked element lies beyond the cursor. */
  predicate WrapsNext<E>(c: Cycle<E>)
  {
    forall k | c.position < k < |c.elements| :: c.elements[k] in c.eliminations
  }

  /** What an advance that is not blocked does to a valid cycle: it ends on an
      unmarked element of a non-empty list; the cursor is back at 0 exactly when
      it wrapped; a wrap rotates and drops the marked; otherwise the list stays
      and the cursor lands on the first unmarked element beyond it. */
  lemma AdvanceEffect<E>(c: Cycle<E>)
    requires Valid(c) && !AllMarked(c)
    ensures var r := Advance(c);
      Valid(r) && |r.elements| > 0 && Current(r).Some? && Current(r).value !in r.eliminations
      && (r.position == 0 <==> WrapsNext(c))
      && (WrapsNext(c) ==> r.elements == RemoveAll(Rotate(c.elements, c.rotation), c.eliminations))
      && (!WrapsNext(c) ==>
            (r.elements == c.elements && c.position < r.position
             && (forall k | c.position < k < r.position :: c.elements[k] in c.eliminations)))
  {
    SkipWraps(c);
    if WrapsNext(c) {
      WrappedNonEmpty(c);
    }
  }

  /** The cursor of a valid, non-empty cycle runs off the end exactly when no
      unmarked element lies beyond it. */
  lemma SkipWraps<E>(c: Cycle<E>)
    requires Valid(c) && c.elements != []
    ensures Skip(c.elements, c.eliminations, c.position) == |c.elements| <==> WrapsNext(c)
  {
    var p := Skip(c.elements, c.eliminations, c.position);
    if !WrapsNext(c) {
      var k :| c.position < k < |c.elements| && c.elements[k] !in c.eliminations;
      assert p <= k;
    }
  }

  /** Rotating keeps every element. */
  lemma RotateKeeps<E>(s: seq<E>, d: int, x: E)
    requires x in s
    ensures x in Rotate(s, d)
  {
    var i :| 0 <= i < |s| && s[i] == x;
    assert Rotate(s, d)[(i + d) % |s|] == x;
  }

  /** Rotating brings in nothing new. */
  lemma RotateFrom<E>(s: seq<E>, d: int, j: int)
    requires 0 <= j < |s|
    ensures Rotate(s, d)[j] in s
  {
    var n := |s|;
    var i, q := (j - d) % n, (j - d) / n;
    assert j - d == n * q + i;
    assert n * -q == -(n * q);
    ModUnique(i + d, n, -q, j);
    RotateAt(s, d, i);
  }

  lemma RotateAt<E>(s: seq<E>, d: int, i: int)
    requires 0 <= i < |s|
    ensures Rotate(s, d)[(i + d) % |s|] == s[i]
  {
  }

  /** Advancing a cycle whose elements all lie in `members` keeps them there,
      and leaves the cursor on one of them. */
  lemma AdvanceWithin<E>(c: Cycle<E>, members: set<E>)
    requires Current(c).Some? && forall i | 0 <= i < |c.elements| :: c.elements[i] in members
    ensures var r := Advance(c);
      && Current(r).Some? && Current(r).value in members
      && forall i | 0 <= i < |r.elements| :: r.elements[i] in members
  {
    if !AllMarked(c) {
      AdvanceEffect(c);
      if WrapsNext(c) {
        var rotated := Rotate(c.elements, c.rotation);
        var r := Advance(c);
        forall i | 0 <= i < |r.elements|
          ensures r.elements[i] in members
        {
          var j :| 0 <= j < |rotated| && rotated[j] == r.elements[i];
          RotateFrom(c.elements, c.rotation, j);
        }
      }
    }
  }

  /** A list with an unmarked element keeps one after a wrap, and the wrap
      starts on it. */
  lemma WrappedNonEmpty<E>(c: Cycle<E>)
    requires !AllMarked(c)
    ensures var s := RemoveAll(Rotate(c.elements, c.rotation), c.eliminations);
      |s| > 0 && s[0] !in c.eliminations
  {
    var i :| 0 <= i < |c.elements| && c.elements[i] !in c.eliminations;
    var rotated := Rotate(c.elements, c.rotation);
    RotateKeeps(c.elements, c.rotation, c.elements[i]);
    var j :| 0 <= j < |rotated| && rotated[j] == c.elements[i];
    assert rotated[j] in RemoveAll(rotated, c.eliminations);
  }

  /** `advance` as the source writes it, with a loop over the cursor. */
  method AdvanceLoop<E>(c: Cycle<E>) returns (r: Cycle<E>)
    ensures r == Advance(c)
  {
    if AllMarked(c) {
      return c;
    }
    var position := c.position + 1;
    while position < |c.elements| && c.elements[position] in c.eliminations
      invariant c.position < position
      invariant Skip(c.elements, c.eliminations, c.position) == Skip(c.elements, c.eliminations, position - 1)
      decreases |c.elements| - position
    {
      position := position + 1;
    }
    if position == |c.elements| {
      r := c.(position := 0, elements := RemoveAll(Rotate(c.elements, c.rotation), c.eliminations));
    } else {
      r := c.(position := position);
    }
  }

  /** Mark `marked` as eliminated, replacing whatever was marked before. */
  function Eliminate<E>(c: Cycle<E>, marked: set<E>): (r: Cycle<E>)
    ensures r.elements == c.elements && r.position == c.position && r.rotation == c.rotation
    ensures r.eliminations == marked
  {
    c.(eliminations := marked)
  }

  /** Eliminating twice keeps only the second set: earlier marks are forgotten. */
  lemma EliminateReplaces<E>(c: Cycle<E>, a: set<E>, b: set<E>, x: E)
    requires x in a && x !in b
    ensures x !in Eliminate(Eliminate(c, a), b).eliminations
  {
  }
}
