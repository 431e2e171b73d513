/** The list helpers of `mylib66/list.py` (`removed`, `drop`, `type_same`,
    `list_concat`). Python lists are modelled as sequences, so the helpers
    cannot modify their arguments: each builds and returns a new list. */
module ListHelpers {
  import opened Wrappers

  // ---------------------------------------------------------------------
  // removed

  /** The `values` argument of `removed`: a single value (`multiple=False`)
      or a sequence of values (`multiple=True`). */
  datatype Values<T> = One(value: T) | Many(values: seq<T>)

  /** The values to be removed; a single value is wrapped in a list. */
  function Targets<T>(values: Values<T>): seq<T> {
    match values
    case One(v) => [v]
    case Many(vs) => vs
  }

  /** The items of `lst`, in order, that do not occur in `targets`. */
  function Kept<T(==)>(lst: seq<T>, targets: seq<T>): seq<T>
    decreases |lst|
  {
    if |lst| == 0 then []
    else
      var last := lst[|lst| - 1];
      Kept(lst[..|lst| - 1], targets) + (if last in targets then [] else [last])
  }

  /** `removed(lst, values, multiple)`: one pass over the list, appending
      every item that is not among the values. */
  method Removed<T(==)>(lst: seq<T>, values: Values<T>) returns (r: seq<T>)
    ensures r == Kept(lst, Targets(values))
    ensures forall x :: x in r <==> x in lst && x !in Targets(values)
    ensures |r| <= |lst|
  {
    var targets := Targets(values);
    r := [];
    for i := 0 to |lst|
      invariant r == Kept(lst[..i], targets)
    {
      assert lst[..i + 1][..i] == lst[..i];
      if lst[i] !in targets {
        r := r + [lst[i]];
      }
    }
    assert lst[..|lst|] == lst;
    KeptMembers(lst, targets);
    KeptLength(lst, targets);
  }

  /** Exactly the items of `lst` that are not targets survive. */
  lemma {:induction false} KeptMembers<T>(lst: seq<T>, targets: seq<T>)
    ensures forall x :: x in Kept(lst, targets) <==> x in lst && x !in targets
    decreases |lst|
  {
    if |lst| > 0 {
      var front := lst[..|lst| - 1];
      KeptMembers(front, targets);
      assert lst == front + [lst[|lst| - 1]];
    }
  }

  lemma {:induction false} KeptLength<T>(lst: seq<T>, targets: seq<T>)
    ensures |Kept(lst, targets)| <= |lst|
    decreases |lst|
  {
    if |lst| > 0 {
      KeptLength(lst[..|lst| - 1], targets);
    }
  }

  /** Filtering a concatenation filters each part, so the original order
      is kept. */
  lemma {:induction false} KeptAppend<T>(s: seq<T>, t: seq<T>, targets: seq<T>)
    ensures Kept(s + t, targets) == Kept(s, targets) + Kept(t, targets)
    decreases |t|
  {
    if |t| == 0 {
      assert s + t == s;
    } else {
      var last := t[|t| - 1];
      var front := t[..|t| - 1];
      assert (s + t)[..|s + t| - 1] == s + front;
      KeptAppend(s, front, targets);
    }
  }

  /** The item at the head is removed exactly when it is a target. */
  lemma KeptCons<T>(x: T, s: seq<T>, targets: seq<T>)
    ensures Kept([x] + s, targets) == (if x in targets then [] else [x]) + Kept(s, targets)
  {
    KeptAppend([x], s, targets);
    assert Kept([x], targets) == (if x in targets then [] else [x]) by {
      assert [x][..0] == [];
      assert Kept([x][..0], targets) == [];
    }
  }

  /** Removing twice removes nothing more. */
  lemma {:induction false} KeptIdempotent<T>(lst: seq<T>, targets: seq<T>)
    ensures Kept(Kept(lst, targets), targets) == Kept(lst, targets)
    decreases |lst|
  {
    if |lst| > 0 {
      var front := lst[..|lst| - 1];
      var last := lst[|lst| - 1];
      KeptIdempotent(front, targets);
      KeptAppend(Kept(front, targets), if last in targets then [] else [last], targets);
      if last !in targets {
        assert [last][..0] == [];
      }
    }
  }

  /** A list with no targets in it comes back unchanged. */
  lemma {:induction false} KeptNoTargets<T>(lst: seq<T>, targets: seq<T>)
    requires forall i :: 0 <= i < |lst| ==> lst[i] !in targets
    ensures Kept(lst, targets) == lst
    decreases |lst|
  {
    if |lst| > 0 {
      KeptNoTargets(lst[..|lst| - 1], targets);
      assert lst[..|lst| - 1] + [lst[|lst| - 1]] == lst;
    }
  }

  // ---------------------------------------------------------------------
  // drop

  /** The `index` argument of `drop`: one int or a list of ints. */
  datatype Index = Single(i: int) | Several(ixs: seq<int>)

  /** The positions to drop; an int is wrapped in a list. */
  function Positions(index: Index): seq<int> {
    match index
    case Single(i) => [i]
    case Several(ixs) => ixs
  }

  /** The elements of `lst`, in order, whose position is not listed. */
  function KeptAt<T>(lst: seq<T>, ixs: seq<int>): seq<T>
    decreases |lst|
  {
    if |lst| == 0 then []
    else
      var n := |lst| - 1;
      KeptAt(lst[..n], ixs) + (if n in ixs then [] else [lst[n]])
  }

  /** The positions of `lst` that are listed in `ixs`. */
  ghost function ValidPositions(n: nat, ixs: seq<int>): set<int> {
    set k | 0 <= k < n && k in ixs
  }

  /** `drop(lst, index)`: one pass over the positions, appending the
      element at every position not in `index`. */
  method Drop<T>(lst: seq<T>, index: Index) returns (r: seq<T>)
    ensures r == KeptAt(lst, Positions(index))
    ensures |r| == |lst| - |ValidPositions(|lst|, Positions(index))|
  {
    var ixs := Positions(index);
    r := [];
    for i := 0 to |lst|
      invariant r == KeptAt(lst[..i], ixs)
    {
      assert lst[..i + 1][..i] == lst[..i];
      if i !in ixs {
        r := r + [lst[i]];
      }
    }
    assert lst[..|lst|] == lst;
    KeptAtLength(lst, ixs);
  }

  /** Exactly one element is lost per listed position inside the list;
      negative and too-large positions are ignored. */
  lemma {:induction false} KeptAtLength<T>(lst: seq<T>, ixs: seq<int>)
    ensures |KeptAt(lst, ixs)| == |lst| - |ValidPositions(|lst|, ixs)|
    decreases |lst|
  {
    if |lst| > 0 {
      var n := |lst| - 1;
      KeptAtLength(lst[..n], ixs);
      var before := ValidPositions(n, ixs);
      if n in ixs {
        assert ValidPositions(|lst|, ixs) == before + {n};
      } else {
        assert ValidPositions(|lst|, ixs) == before;
      }
    }
  }

  /** Positions outside 0 .. |lst| - 1 change nothing. */
  lemma {:induction false} KeptAtNoneValid<T>(lst: seq<T>, ixs: seq<int>)
    requires forall j :: 0 <= j < |ixs| ==> ixs[j] < 0 || ixs[j] >= |lst|
    ensures KeptAt(lst, ixs) == lst
    decreases |lst|
  {
    if |lst| > 0 {
      var n := |lst| - 1;
      KeptAtNoneValid(lst[..n], ixs);
      assert lst[..n] + [lst[n]] == lst;
    }
  }

  lemma {:induction false} KeptAtPrefix<T>(lst: seq<T>, i: int, n: nat)
    requires n <= |lst| && n <= i
    ensures KeptAt(lst[..n], [i]) == lst[..n]
    decreases n
  {
    if n > 0 {
      assert lst[..n][..n - 1] == lst[..n - 1];
      KeptAtPrefix(lst, i, n - 1);
      assert lst[..n - 1] + [lst[n - 1]] == lst[..n];
    }
  }

  /** Dropping one valid position leaves the elements before and after it. */
  lemma {:induction false} KeptAtOne<T>(lst: seq<T>, i: int)
    requires 0 <= i < |lst|
    ensures KeptAt(lst, [i]) == lst[..i] + lst[i + 1..]
    decreases |lst|
  {
    var n := |lst| - 1;
    if n == i {
      KeptAtPrefix(lst, i, i);
      assert lst[i + 1..] == [];
    } else {
      KeptAtOne(lst[..n], i);
      assert lst[..n][..i] == lst[..i];
      assert lst[..n][i + 1..] + [lst[n]] == lst[i + 1..];
    }
  }

  // ---------------------------------------------------------------------
  // type_same

  /** The three results of `type_same`: `True`, `False`, and
      `(False, type)` when the wrong type is asked for. */
  datatype Verdict<Tag> = AllSame | Mismatch | MismatchOf(found: Tag)

  /** Position i holds the first element whose type is not `target`. */
  ghost predicate IsFirstMismatch<T, Tag>(i: int, lst: seq<T>, typeOf: T -> Tag, target: Tag) {
    0 <= i < |lst| && typeOf(lst[i]) != target &&
    forall j :: 0 <= j < i ==> typeOf(lst[j]) == target
  }

  /** `type_same(lst, target_type, get_wrong_type)`; the runtime type of an
      element is `typeOf` of it. Without a target type, the type of
      `lst[0]` is used, which fails on an empty list. */
  method TypeSame<T, Tag(==)>(lst: seq<T>, typeOf: T -> Tag, targetType: Option<Tag>, getWrongType: bool)
    returns (r: Outcome<Verdict<Tag>>)
    ensures r.Err? <==> targetType.None? && |lst| == 0
    ensures r.Err? ==> r.failure == EmptySequence
    ensures r.Ok? ==> var target := if targetType.Some? then targetType.value else typeOf(lst[0]);
      (r.value == AllSame <==> forall i :: 0 <= i < |lst| ==> typeOf(lst[i]) == target) &&
      (r.value != AllSame ==> exists i :: (IsFirstMismatch(i, lst, typeOf, target) &&
         r.value == if getWrongType then MismatchOf(typeOf(lst[i])) else Mismatch))
  {
    var target;
    if targetType.None? {
      if |lst| == 0 {
        return Err(EmptySequence);
      }
      target := typeOf(lst[0]);
    } else {
      target := targetType.value;
    }
    for i := 0 to |lst|
      invariant forall j :: 0 <= j < i ==> typeOf(lst[j]) == target
    {
      if typeOf(lst[i]) != target {
        assert IsFirstMismatch(i, lst, typeOf, target);
        if getWrongType {
          return Ok(MismatchOf(typeOf(lst[i])));
        } else {
          return Ok(Mismatch);
        }
      }
    }
    return Ok(AllSame);
  }

  // ---------------------------------------------------------------------
  // list_concat

  /** The concatenation of the lists, in order. */
  function Flatten<T>(lists: seq<seq<T>>): seq<T>
    decreases |lists|
  {
    if |lists| == 0 then [] else lists[0] + Flatten(lists[1..])
  }

  function TotalLength<T>(lists: seq<seq<T>>): nat
    decreases |lists|
  {
    if |lists| == 0 then 0 else |lists[0]| + TotalLength(lists[1..])
  }

  /** `list_concat(*lists)`: the accumulator is rebound to itself plus the
      next list, from left to right. */
  method ListConcat<T>(lists: seq<seq<T>>) returns (r: seq<T>)
    ensures r == Flatten(lists)
    ensures |r| == TotalLength(lists)
  {
    r := [];
    for i := 0 to |lists|
      invariant r == Flatten(lists[..i])
    {
      FlattenAppend(lists[..i], [lists[i]]);
      assert lists[..i] + [lists[i]] == lists[..i + 1];
      assert [lists[i]][1..] == [];
      r := r + lists[i];
    }
    assert lists[..|lists|] == lists;
    FlattenLength(lists);
  }

  /** Concatenating two groups of lists concatenates their results. */
  lemma {:induction false} FlattenAppend<T>(a: seq<seq<T>>, b: seq<seq<T>>)
    ensures Flatten(a + b) == Flatten(a) + Flatten(b)
    decreases |a|
  {
    if |a| == 0 {
      assert a + b == b;
    } else {
      assert (a + b)[1..] == a[1..] + b;
      FlattenAppend(a[1..], b);
    }
  }

  /** The length of the result is the sum of the lengths. */
  lemma {:induction false} FlattenLength<T>(lists: seq<seq<T>>)
    ensures |Flatten(lists)| == TotalLength(lists)
    decreases |lists|
  {
    if |lists| > 0 {
      FlattenLength(lists[1..]);
    }
  }

  /** An element is in the result exactly when it is in one of the lists. */
  lemma {:induction false} FlattenMembers<T>(lists: seq<seq<T>>, x: T)
    ensures x in Flatten(lists) <==> exists i :: 0 <= i < |lists| && x in lists[i]
    decreases |lists|
  {
    if |lists| > 0 {
      FlattenMembers(lists[1..], x);
      if exists i :: 0 <= i < |lists| && x in lists[i] {
        var i :| 0 <= i < |lists| && x in lists[i];
        if i > 0 {
          assert x in lists[1..][i - 1];
        }
      }
      if exists i :: 0 <= i < |lists[1..]| && x in lists[1..][i] {
        var i :| 0 <= i < |lists[1..]| && x in lists[1..][i];
        assert x in lists[i + 1];
      }
    }
  }
}
