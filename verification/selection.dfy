/** Keeping, in order, the elements of a sequence that a check accepts: the
    shape of a loop that appends each accepted item to a result list and
    `continue`s past the rest. */
module Selection {
  import opened Results

  /** The values `check` produces for the elements it accepts, in the order
      of `xs`: the list built by visiting `xs` front to back and appending. */
  function FilterMap<T, U>(xs: seq<T>, check: T -> Option<U>): (r: seq<U>)
    ensures |r| <= |xs|
    decreases |xs|
  {
    if xs == [] then []
    else
      var kept := FilterMap(xs[..|xs| - 1], check);
      match check(xs[|xs| - 1])
      case Some(y) => kept + [y]
      case None => kept
  }

  /** `idx` lists, in increasing order, exactly the positions of the elements
      `check` accepts, and `r` holds what `check` produced at those positions. */
  ghost predicate IsOrderedSelection<T, U>(xs: seq<T>, check: T -> Option<U>, r: seq<U>, idx: seq<nat>)
  {
    && |idx| == |r|
    && (forall k :: 0 <= k < |idx| ==> idx[k] < |xs| && check(xs[idx[k]]) == Some(r[k]))
    && (forall k, l :: 0 <= k < l < |idx| ==> idx[k] < idx[l])
    && (forall j :: 0 <= j < |xs| && check(xs[j]).Some? ==> j in idx)
  }

  /** The accepted positions of `xs`, in increasing order. */
  ghost function AcceptedPositions<T, U>(xs: seq<T>, check: T -> Option<U>): (idx: seq<nat>)
    ensures forall k :: 0 <= k < |idx| ==> idx[k] < |xs|
    ensures forall k, l :: 0 <= k < l < |idx| ==> idx[k] < idx[l]
    decreases |xs|
  {
    if xs == [] then []
    else
      var front := AcceptedPositions(xs[..|xs| - 1], check);
      if check(xs[|xs| - 1]).Some? then front + [|xs| - 1] else front
  }

  lemma {:induction false} AcceptedPositionsProduce<T, U>(xs: seq<T>, check: T -> Option<U>)
    ensures |AcceptedPositions(xs, check)| == |FilterMap(xs, check)|
    ensures forall k :: 0 <= k < |FilterMap(xs, check)| ==>
              check(xs[AcceptedPositions(xs, check)[k]]) == Some(FilterMap(xs, check)[k])
    decreases |xs|
  {
    if xs != [] {
      var n := |xs| - 1;
      var front := xs[..n];
      AcceptedPositionsProduce(front, check);
      var r := FilterMap(xs, check);
      var idx := AcceptedPositions(xs, check);
      var r' := FilterMap(front, check);
      var idx' := AcceptedPositions(front, check);
      assert forall k :: 0 <= k < |idx'| ==> front[idx'[k]] == xs[idx'[k]];
      if check(xs[n]).Some? {
        assert r == r' + [check(xs[n]).value];
        assert idx == idx' + [n];
      } else {
        assert r == r';
        assert idx == idx';
      }
    }
  }

  lemma {:induction false} AcceptedPositionsComplete<T, U>(xs: seq<T>, check: T -> Option<U>)
    ensures forall j :: 0 <= j < |xs| && check(xs[j]).Some? ==> j in AcceptedPositions(xs, check)
    decreases |xs|
  {
    if xs != [] {
      var n := |xs| - 1;
      var front := xs[..n];
      AcceptedPositionsComplete(front, check);
      var idx := AcceptedPositions(xs, check);
      var idx' := AcceptedPositions(front, check);
      assert idx == idx' + (if check(xs[n]).Some? then [n] else []);
      forall j | 0 <= j < |xs| && check(xs[j]).Some?
        ensures j in idx
      {
        if j < n {
          assert front[j] == xs[j];
          assert j in idx';
        }
      }
    }
  }

  /** The filter keeps an element if and only if the check accepts it, keeps
      what the check produced for it, and keeps the original order. */
  lemma FilterMapIsOrderedSelection<T, U>(xs: seq<T>, check: T -> Option<U>)
    ensures exists idx :: IsOrderedSelection(xs, check, FilterMap(xs, check), idx)
  {
    AcceptedPositionsProduce(xs, check);
    AcceptedPositionsComplete(xs, check);
    assert IsOrderedSelection(xs, check, FilterMap(xs, check), AcceptedPositions(xs, check));
  }

  /** Filtering a concatenation filters each part in turn. */
  lemma {:induction false} FilterMapAppend<T, U>(a: seq<T>, b: seq<T>, check: T -> Option<U>)
    ensures FilterMap(a + b, check) == FilterMap(a, check) + FilterMap(b, check)
    decreases |b|
  {
    if b == [] {
      assert a + b == a;
    } else {
      var n := |b| - 1;
      assert (a + b)[..|a + b| - 1] == a + b[..n];
      assert (a + b)[|a + b| - 1] == b[n];
      FilterMapAppend(a, b[..n], check);
    }
  }

  /** An element the check rejects leaves no trace: removing it changes nothing. */
  lemma RejectedElementIsDropped<T, U>(before: seq<T>, x: T, after: seq<T>, check: T -> Option<U>)
    requires check(x).None?
    ensures FilterMap(before + [x] + after, check) == FilterMap(before + after, check)
  {
    FilterMapAppend(before + [x], after, check);
    FilterMapAppend(before, [x], check);
    FilterMapAppend(before, after, check);
    assert [x][..0] == [];
    assert FilterMap([x], check) == FilterMap([x][..0], check);
  }
}
