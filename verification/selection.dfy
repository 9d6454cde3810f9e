/** Keeping the present values of a sequence of optional values, in order.
    `Somes` computes it; `Selects` is an independent description through
    the positions kept, and the two are proved to agree. */
module Selection {
  import opened Wrappers

  /** The present values of `s`, in order. */
  function Somes<T>(s: seq<Option<T>>): (out: seq<T>)
    ensures |out| <= |s|
  {
    if |s| == 0 then []
    else if s[0].Some? then [s[0].value] + Somes(s[1..])
    else Somes(s[1..])
  }

  /** `f` applied to every element of `s`. */
  function MapSeq<A, B>(f: A -> B, s: seq<A>): (r: seq<B>)
    ensures |r| == |s|
    ensures forall i :: 0 <= i < |s| ==> r[i] == f(s[i])
  {
    seq(|s|, i requires 0 <= i < |s| => f(s[i]))
  }

  /** Mapping distributes over concatenation. */
  lemma MapSeqAppend<A, B>(f: A -> B, a: seq<A>, b: seq<A>)
    ensures MapSeq(f, a + b) == MapSeq(f, a) + MapSeq(f, b)
  {
  }

  /** Keeping the present values distributes over concatenation. */
  lemma {:induction false} SomesAppend<T>(a: seq<Option<T>>, b: seq<Option<T>>)
    ensures Somes(a + b) == Somes(a) + Somes(b)
    decreases |a|
  {
    if |a| == 0 {
      assert a + b == b;
    } else {
      assert (a + b)[1..] == a[1..] + b;
      SomesAppend(a[1..], b);
    }
  }

  /** A single optional value keeps its value, if any. */
  lemma SomesSingle<T>(x: Option<T>)
    ensures x.Some? ==> Somes([x]) == [x.value]
    ensures x.None? ==> Somes([x]) == []
  {
    assert [x][1..] == [];
  }

  /** `out` lists the values of `s` at the strictly increasing positions
      `idx`, those positions hold values, and every position of `s` that
      holds a value is one of them. */
  ghost predicate Selects<T>(s: seq<Option<T>>, out: seq<T>, idx: seq<int>)
  {
    && |idx| == |out|
    && Increasing(idx)
    && Picks(s, out, idx)
    && Covers(s, idx)
  }

  /** Positions listed in strictly increasing order. */
  ghost predicate Increasing(idx: seq<int>)
  {
    forall k, l :: 0 <= k < l < |idx| ==> idx[k] < idx[l]
  }

  /** The `k`-th value of `out` is the value present at position `idx[k]`. */
  ghost predicate Picks<T>(s: seq<Option<T>>, out: seq<T>, idx: seq<int>)
    requires |idx| == |out|
  {
    forall k :: 0 <= k < |idx| ==> 0 <= idx[k] < |s| && s[idx[k]] == Some(out[k])
  }

  /** Every position that holds a value is listed. */
  ghost predicate Covers<T>(s: seq<Option<T>>, idx: seq<int>)
  {
    forall i :: 0 <= i < |s| && s[i].Some? ==> i in idx
  }

  /** Every position of `idx` moved by `d`. */
  function Shift(idx: seq<int>, d: int): (r: seq<int>)
    ensures |r| == |idx|
    ensures forall k :: 0 <= k < |r| ==> r[k] == idx[k] + d
  {
    seq(|idx|, k requires 0 <= k < |idx| => idx[k] + d)
  }

  /** Position 0 followed by every position of `idx` moved up by one. */
  function ConsZero(idx: seq<int>): (r: seq<int>)
    ensures |r| == |idx| + 1 && r[0] == 0
    ensures forall k :: 0 < k < |r| ==> r[k] == idx[k - 1] + 1
  {
    seq(|idx| + 1, k requires 0 <= k <= |idx| => if k == 0 then 0 else idx[k - 1] + 1)
  }

  /** `Somes` meets the description: its result is the values of `s` at
      exactly the positions that hold one, in order. */
  lemma {:induction false} SomesSelects<T>(s: seq<Option<T>>)
    ensures exists idx :: Selects(s, Somes(s), idx)
    decreases |s|
  {
    if |s| == 0 {
      assert Selects(s, Somes(s), []);
    } else {
      SomesSelects(s[1..]);
      var idx :| Selects(s[1..], Somes(s[1..]), idx);
      if s[0].Some? {
        SelectsConsSome(s, Somes(s[1..]), idx);
        assert Selects(s, Somes(s), ConsZero(idx));
      } else {
        SelectsConsNone(s, Somes(s[1..]), idx);
        assert Selects(s, Somes(s), Shift(idx, 1));
      }
    }
  }

  /** The description has only one solution: any `out` it admits is
      `Somes(s)`. */
  lemma {:induction false} SelectsUnique<T>(s: seq<Option<T>>, out: seq<T>, idx: seq<int>)
    requires Selects(s, out, idx)
    ensures out == Somes(s)
    decreases |s|
  {
    if |s| == 0 {
      assert |idx| == 0;
    } else if s[0].Some? {
      SelectsTailSome(s, out, idx);
      SelectsUnique(s[1..], out[1..], Shift(idx[1..], -1));
      assert out == [out[0]] + out[1..];
    } else {
      SelectsTailNone(s, out, idx);
      SelectsUnique(s[1..], out, Shift(idx, -1));
    }
  }

  /** Moving every position by the same amount keeps the order. */
  lemma IncreasingShift(idx: seq<int>, d: int)
    requires Increasing(idx)
    ensures Increasing(Shift(idx, d))
  {
    var r := Shift(idx, d);
    forall k, l | 0 <= k < l < |r|
      ensures r[k] < r[l]
    {
      assert idx[k] < idx[l];
    }
  }

  /** Putting 0 in front of non-negative increasing positions moved up by
      one keeps them increasing. */
  lemma IncreasingConsZero(idx: seq<int>)
    requires Increasing(idx)
    requires forall k :: 0 <= k < |idx| ==> 0 <= idx[k]
    ensures Increasing(ConsZero(idx))
  {
    var r := ConsZero(idx);
    forall k, l | 0 <= k < l < |r|
      ensures r[k] < r[l]
    {
      if k > 0 {
        assert idx[k - 1] < idx[l - 1];
      } else {
        assert 0 <= idx[l - 1];
      }
    }
  }

  /** Positions into `s[1..]`, moved up by one, pick the same values from `s`. */
  lemma PicksShiftUp<T>(s: seq<Option<T>>, out: seq<T>, idx: seq<int>)
    requires |s| > 0 && |idx| == |out|
    requires Picks(s[1..], out, idx)
    ensures Picks(s, out, Shift(idx, 1))
  {
    var r := Shift(idx, 1);
    forall k | 0 <= k < |r|
      ensures 0 <= r[k] < |s| && s[r[k]] == Some(out[k])
    {
      assert s[r[k]] == s[1..][idx[k]];
    }
  }

  /** Positions into `s` other than 0, moved down by one, pick the same
      values from `s[1..]`. */
  lemma PicksShiftDown<T>(s: seq<Option<T>>, out: seq<T>, idx: seq<int>)
    requires |s| > 0 && |idx| == |out|
    requires Picks(s, out, idx)
    requires forall k :: 0 <= k < |idx| ==> idx[k] != 0
    ensures Picks(s[1..], out, Shift(idx, -1))
  {
    var r := Shift(idx, -1);
    forall k | 0 <= k < |r|
      ensures 0 <= r[k] < |s| - 1 && s[1..][r[k]] == Some(out[k])
    {
      assert idx[k] != 0;
      assert s[1..][r[k]] == s[idx[k]];
    }
  }

  /** With position 0 empty, covering `s[1..]` and moving up by one covers `s`. */
  lemma CoversShiftUp<T>(s: seq<Option<T>>, idx: seq<int>)
    requires |s| > 0 && s[0].None?
    requires Covers(s[1..], idx)
    ensures Covers(s, Shift(idx, 1))
  {
    var r := Shift(idx, 1);
    forall i | 0 <= i < |s| && s[i].Some?
      ensures i in r
    {
      assert s[1..][i - 1] == s[i];
      var k :| 0 <= k < |idx| && idx[k] == i - 1;
      assert r[k] == i;
    }
  }

  /** Covering `s[1..]`, moved up by one with 0 in front, covers `s`. */
  lemma CoversConsZero<T>(s: seq<Option<T>>, idx: seq<int>)
    requires |s| > 0
    requires Covers(s[1..], idx)
    ensures Covers(s, ConsZero(idx))
  {
    var r := ConsZero(idx);
    forall i | 0 <= i < |s| && s[i].Some?
      ensures i in r
    {
      if i == 0 {
        assert r[0] == i;
      } else {
        assert s[1..][i - 1] == s[i];
        var k :| 0 <= k < |idx| && idx[k] == i - 1;
        assert r[k + 1] == i;
      }
    }
  }

  /** Covering `s`, moved down by one, covers `s[1..]`. */
  lemma CoversShiftDown<T>(s: seq<Option<T>>, idx: seq<int>)
    requires |s| > 0
    requires Covers(s, idx)
    ensures Covers(s[1..], Shift(idx, -1))
  {
    var r := Shift(idx, -1);
    forall i | 0 <= i < |s| - 1 && s[1..][i].Some?
      ensures i in r
    {
      assert s[i + 1] == s[1..][i];
      var k :| 0 <= k < |idx| && idx[k] == i + 1;
      assert r[k] == i;
    }
  }

  /** A selection from `s[1..]` extends to `s` with the value at position 0 in front. */
  lemma SelectsConsSome<T>(s: seq<Option<T>>, out: seq<T>, idx: seq<int>)
    requires |s| > 0 && s[0].Some?
    requires Selects(s[1..], out, idx)
    ensures Selects(s, [s[0].value] + out, ConsZero(idx))
  {
    var idx0 := ConsZero(idx);
    var out0 := [s[0].value] + out;
    IncreasingConsZero(idx);
    PicksShiftUp(s, out, idx);
    assert Picks(s, out0, idx0) by {
      var moved := Shift(idx, 1);
      forall k | 0 <= k < |idx0|
        ensures 0 <= idx0[k] < |s| && s[idx0[k]] == Some(out0[k])
      {
        if k > 0 {
          assert idx0[k] == moved[k - 1] && out0[k] == out[k - 1];
        }
      }
    }
    CoversConsZero(s, idx);
  }

  /** A selection from `s[1..]` is one from `s` when position 0 is empty. */
  lemma SelectsConsNone<T>(s: seq<Option<T>>, out: seq<T>, idx: seq<int>)
    requires |s| > 0 && s[0].None?
    requires Selects(s[1..], out, idx)
    ensures Selects(s, out, Shift(idx, 1))
  {
    IncreasingShift(idx, 1);
    PicksShiftUp(s, out, idx);
    CoversShiftUp(s, idx);
  }

  /** In a selection, a value at position 0 comes first and only once. */
  lemma SelectsFront<T>(s: seq<Option<T>>, out: seq<T>, idx: seq<int>)
    requires |s| > 0 && s[0].Some?
    requires Selects(s, out, idx)
    ensures |idx| > 0 && idx[0] == 0
    ensures forall k :: 1 <= k < |idx| ==> idx[k] != 0
  {
    assert 0 in idx;
    var m :| 0 <= m < |idx| && idx[m] == 0;
    assert idx[0] <= idx[m] by {
      if m > 0 {
        assert idx[0] < idx[m];
      }
    }
    forall k | 1 <= k < |idx|
      ensures idx[k] != 0
    {
      assert idx[0] < idx[k];
    }
  }

  /** A selection from `s` whose position 0 holds a value starts with that
      value and continues with a selection from `s[1..]`. */
  lemma SelectsTailSome<T>(s: seq<Option<T>>, out: seq<T>, idx: seq<int>)
    requires |s| > 0 && s[0].Some?
    requires Selects(s, out, idx)
    ensures |out| > 0 && out[0] == s[0].value
    ensures Selects(s[1..], out[1..], Shift(idx[1..], -1))
  {
    SelectsFront(s, out, idx);
    var idx1 := idx[1..];
    var out1 := out[1..];
    assert Increasing(idx1) by {
      forall k, l | 0 <= k < l < |idx1|
        ensures idx1[k] < idx1[l]
      {
        assert idx[k + 1] < idx[l + 1];
      }
    }
    IncreasingShift(idx1, -1);
    assert Picks(s, out1, idx1) by {
      forall k | 0 <= k < |idx1|
        ensures 0 <= idx1[k] < |s| && s[idx1[k]] == Some(out1[k])
      {
        assert idx1[k] == idx[k + 1] && out1[k] == out[k + 1];
      }
    }
    PicksShiftDown(s, out1, idx1);
    assert Covers(s[1..], Shift(idx1, -1)) by {
      var r := Shift(idx1, -1);
      forall i | 0 <= i < |s| - 1 && s[1..][i].Some?
        ensures i in r
      {
        assert s[i + 1] == s[1..][i];
        var k :| 0 <= k < |idx| && idx[k] == i + 1;
        assert r[k - 1] == i;
      }
    }
  }

  /** A selection from `s` whose position 0 is empty is one from `s[1..]`. */
  lemma SelectsTailNone<T>(s: seq<Option<T>>, out: seq<T>, idx: seq<int>)
    requires |s| > 0 && s[0].None?
    requires Selects(s, out, idx)
    ensures Selects(s[1..], out, Shift(idx, -1))
  {
    IncreasingShift(idx, -1);
    forall k | 0 <= k < |idx|
      ensures idx[k] != 0
    {
      assert s[idx[k]].Some?;
    }
    PicksShiftDown(s, out, idx);
    CoversShiftDown(s, idx);
  }
}
