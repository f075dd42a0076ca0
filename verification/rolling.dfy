/** The trailing moving average the dashboards overlay on every bar panel:
    `series.rolling(window=4, min_periods=1).mean()`. Position i averages the
    non-NaN values among positions max(0, i-3)..i, and is NaN only when all of
    them are NaN. */
module Rolling {
  import opened Wrappers

  const WINDOW: nat := 4

  /** The non-NaN values of `w`, in order. */
  function Present(w: seq<Option<real>>): seq<real> {
    if |w| == 0 then [] else (if w[0].Some? then [w[0].value] else []) + Present(w[1..])
  }

  function Sum(xs: seq<real>): real {
    if |xs| == 0 then 0.0 else xs[0] + Sum(xs[1..])
  }

  /** First position of the window that ends at `i`. */
  function WindowStart(i: nat): nat {
    if i < WINDOW - 1 then 0 else i - (WINDOW - 1)
  }

  function Mean(xs: seq<real>): real
    requires |xs| > 0
  {
    Sum(xs) / (|xs| as real)
  }

  /** The average of the window ending at `i`; NaN when it holds no number. */
  function WindowMean(s: seq<Option<real>>, i: nat): Option<real>
    requires i < |s|
  {
    var p := Present(s[WindowStart(i)..i + 1]);
    if |p| == 0 then None else Some(Mean(p))
  }

  lemma {:induction false} PresentEmpty(w: seq<Option<real>>)
    ensures |Present(w)| == 0 <==> forall k :: 0 <= k < |w| ==> w[k].None?
  {
    if |w| > 0 {
      PresentEmpty(w[1..]);
      assert forall k :: 1 <= k < |w| ==> w[k] == w[1..][k - 1];
    }
  }

  /** The series of window averages, one per position. */
  function MovingAverage(s: seq<Option<real>>): (r: seq<Option<real>>)
    ensures |r| == |s|
    ensures forall i :: 0 <= i < |s| ==>
      (r[i].None? <==> forall k :: WindowStart(i) <= k <= i ==> s[k].None?)
  {
    var r := seq(|s|, i requires 0 <= i < |s| => WindowMean(s, i));
    forall i | 0 <= i < |s|
      ensures r[i].None? <==> forall k :: WindowStart(i) <= k <= i ==> s[k].None?
    {
      WindowMeanNone(s, i);
    }
    r
  }

  /** A window's mean is NaN exactly when every value in it is NaN. */
  lemma WindowMeanNone(s: seq<Option<real>>, i: nat)
    requires i < |s|
    ensures WindowMean(s, i).None? <==> forall k :: WindowStart(i) <= k <= i ==> s[k].None?
  {
    var w := s[WindowStart(i)..i + 1];
    PresentEmpty(w);
    assert forall k :: WindowStart(i) <= k <= i ==> s[k] == w[k - WindowStart(i)];
  }

  lemma {:induction false} PresentAppend(a: seq<Option<real>>, b: seq<Option<real>>)
    ensures Present(a + b) == Present(a) + Present(b)
  {
    if |a| > 0 {
      assert (a + b)[1..] == a[1..] + b;
      PresentAppend(a[1..], b);
    } else {
      assert a + b == b;
    }
  }

  lemma {:induction false} SumAppend(a: seq<real>, b: seq<real>)
    ensures Sum(a + b) == Sum(a) + Sum(b)
  {
    if |a| > 0 {
      assert (a + b)[1..] == a[1..] + b;
      SumAppend(a[1..], b);
    } else {
      assert a + b == b;
    }
  }

  /** Adding one position at the end of a window. */
  lemma Extend(s: seq<Option<real>>, lo: nat, i: nat)
    requires lo <= i < |s|
    ensures var old_ := Present(s[lo..i]);
      var new_ := Present(s[lo..i + 1]);
      && Sum(new_) == Sum(old_) + (if s[i].Some? then s[i].value else 0.0)
      && |new_| == |old_| + (if s[i].Some? then 1 else 0)
  {
    assert s[lo..i + 1] == s[lo..i] + [s[i]];
    PresentAppend(s[lo..i], [s[i]]);
    SumAppend(Present(s[lo..i]), Present([s[i]]));
    assert Present([s[i]]) == if s[i].Some? then [s[i].value] else [];
  }

  /** Dropping the first position of a window. */
  lemma Shrink(s: seq<Option<real>>, lo: nat, hi: nat)
    requires lo < hi <= |s|
    ensures var old_ := Present(s[lo..hi]);
      var new_ := Present(s[lo + 1..hi]);
      && Sum(new_) == Sum(old_) - (if s[lo].Some? then s[lo].value else 0.0)
      && |new_| == |old_| - (if s[lo].Some? then 1 else 0)
  {
    assert s[lo..hi] == [s[lo]] + s[lo + 1..hi];
    PresentAppend([s[lo]], s[lo + 1..hi]);
    SumAppend(Present([s[lo]]), Present(s[lo + 1..hi]));
    assert Present([s[lo]]) == if s[lo].Some? then [s[lo].value] else [];
  }

  /** The mean of `count` numbers adding up to `sum`; NaN when there are none. */
  function MeanOf(sum: real, count: nat): Option<real> {
    if count == 0 then None else Some(sum / (count as real))
  }

  function Val(o: Option<real>): real {
    if o.Some? then o.value else 0.0
  }

  function Ind(o: Option<real>): nat {
    if o.Some? then 1 else 0
  }

  function WindowSum(s: seq<Option<real>>, i: nat): real
    requires i < |s|
  {
    Sum(Present(s[WindowStart(i)..i + 1]))
  }

  function WindowCount(s: seq<Option<real>>, i: nat): nat
    requires i < |s|
  {
    |Present(s[WindowStart(i)..i + 1])|
  }

  /** Moving the window one position right adds the new value and, once the
      window is full, drops the value four positions back. */
  lemma Slide(s: seq<Option<real>>, i: nat)
    requires i < |s|
    ensures WindowSum(s, i) == (if i == 0 then 0.0 else WindowSum(s, i - 1)) + Val(s[i])
                               - (if i >= WINDOW then Val(s[i - WINDOW]) else 0.0)
    ensures WindowCount(s, i) == (if i == 0 then 0 else WindowCount(s, i - 1)) + Ind(s[i])
                                 - (if i >= WINDOW then Ind(s[i - WINDOW]) else 0)
  {
    var lo := if i == 0 then 0 else WindowStart(i - 1);
    assert Present(s[lo..lo]) == [];
    Extend(s, lo, i);
    if i >= WINDOW {
      Shrink(s, lo, i + 1);
    }
  }

  lemma MeanOfWindow(s: seq<Option<real>>, i: nat)
    requires i < |s|
    ensures MeanOf(WindowSum(s, i), WindowCount(s, i)) == WindowMean(s, i)
  {
  }

  /** One step of the running sum and count: from the window ending at
      `i - 1` (nothing before the first position) to the one ending at `i`. */
  lemma SlideStep(s: seq<Option<real>>, i: nat, sum: real, count: int)
    requires i < |s|
    requires i == 0 ==> sum == 0.0 && count == 0
    requires i > 0 ==> sum == WindowSum(s, i - 1) && count == WindowCount(s, i - 1)
    ensures var sum' := sum + Val(s[i]) - (if i >= WINDOW then Val(s[i - WINDOW]) else 0.0);
      var count' := count + Ind(s[i]) - (if i >= WINDOW then Ind(s[i - WINDOW]) else 0);
      && sum' == WindowSum(s, i)
      && count' == WindowCount(s, i)
      && MeanOf(sum', count') == WindowMean(s, i)
  {
    Slide(s, i);
    MeanOfWindow(s, i);
  }

  /** Computes the moving average in one pass, keeping the running sum and
      count of the numbers inside the window as it slides, the way pandas'
      rolling kernels do. */
  method SlidingMean(s: seq<Option<real>>) returns (r: seq<Option<real>>)
    ensures r == MovingAverage(s)
  {
    r := [];
    var sum := 0.0;
    var count := 0;
    var i := 0;
    while i < |s|
      invariant 0 <= i <= |s|
      invariant |r| == i
      invariant forall k :: 0 <= k < i ==> r[k] == WindowMean(s, k)
      invariant i == 0 ==> sum == 0.0 && count == 0
      invariant i > 0 ==> sum == WindowSum(s, i - 1) && count == WindowCount(s, i - 1)
    {
      SlideStep(s, i, sum, count);
      sum := sum + Val(s[i]);
      count := count + Ind(s[i]);
      if i >= WINDOW {
        sum := sum - Val(s[i - WINDOW]);
        count := count - Ind(s[i - WINDOW]);
      }
      r := r + [MeanOf(sum, count)];
      i := i + 1;
    }
    WindowMeans(s, r);
  }

  /** A series holding the mean of every window is the moving average. */
  lemma WindowMeans(s: seq<Option<real>>, r: seq<Option<real>>)
    requires |r| == |s| && forall k :: 0 <= k < |s| ==> r[k] == WindowMean(s, k)
    ensures r == MovingAverage(s)
  {
    var m := MovingAverage(s);
    forall k | 0 <= k < |s|
      ensures r[k] == m[k]
    {
    }
  }

  function Values(w: seq<Option<real>>): seq<real>
    requires forall k :: 0 <= k < |w| ==> w[k].Some?
  {
    seq(|w|, k requires 0 <= k < |w| => w[k].value)
  }

  /** With no NaN in the series, position i is the plain mean of the last
      min(i + 1, 4) values: an expanding mean until the window fills. */
  lemma {:induction false} MovingAverageNoGaps(s: seq<Option<real>>, i: nat)
    requires forall k :: 0 <= k < |s| ==> s[k].Some?
    requires i < |s|
    ensures var w := s[WindowStart(i)..i + 1];
      MovingAverage(s)[i] == Some(Sum(Values(w)) / ((if i < WINDOW then i + 1 else WINDOW) as real))
  {
    var w := s[WindowStart(i)..i + 1];
    PresentAll(w);
  }

  lemma {:induction false} PresentAll(w: seq<Option<real>>)
    requires forall k :: 0 <= k < |w| ==> w[k].Some?
    ensures Present(w) == Values(w)
  {
    if |w| > 0 {
      PresentAll(w[1..]);
      assert Values(w) == [w[0].value] + Values(w[1..]);
    }
  }

  lemma SumOfFour(a: real, b: real, c: real, d: real)
    ensures Sum([a, b, c, d]) == a + b + c + d
  {
    assert [a, b, c, d][1..] == [b, c, d];
    assert [b, c, d][1..] == [c, d];
    assert [c, d][1..] == [d];
    assert [d][1..] == [];
    assert Sum([d]) == d;
    assert Sum([c, d]) == c + d;
    assert Sum([b, c, d]) == b + c + d;
  }

  /** Full windows of a gap-free series average their four values. */
  lemma FullWindow(s: seq<Option<real>>, i: nat)
    requires forall k :: 0 <= k < |s| ==> s[k].Some?
    requires WINDOW - 1 <= i < |s|
    ensures MovingAverage(s)[i]
      == Some((s[i - 3].value + s[i - 2].value + s[i - 1].value + s[i].value) / 4.0)
  {
    MovingAverageNoGaps(s, i);
    assert WindowStart(i) == i - 3;
    var w := s[i - 3..i + 1];
    assert |w| == 4 && w[0] == s[i - 3] && w[1] == s[i - 2] && w[2] == s[i - 1] && w[3] == s[i];
    assert Values(w) == [s[i - 3].value, s[i - 2].value, s[i - 1].value, s[i].value];
    assert MovingAverage(s)[i] == Some(Sum(Values(w)) / 4.0);
    SumOfFour(s[i - 3].value, s[i - 2].value, s[i - 1].value, s[i].value);
  }

  /** The first three positions of the example, where the window is still
      filling and the mean is an expanding one. */
  lemma ExampleHead(s: seq<Option<real>>)
    requires s == [Some(10.0), Some(20.0), Some(30.0), Some(40.0), Some(50.0)]
    ensures MovingAverage(s)[0] == Some(10.0)
    ensures MovingAverage(s)[1] == Some(15.0)
    ensures MovingAverage(s)[2] == Some(20.0)
  {
    assert MovingAverage(s)[0] == Some(10.0) by {
      MovingAverageNoGaps(s, 0);
      assert Values(s[0..1]) == [10.0];
    }
    assert MovingAverage(s)[1] == Some(15.0) by {
      MovingAverageNoGaps(s, 1);
      assert Values(s[0..2]) == [10.0, 20.0];
      assert [10.0, 20.0][1..] == [20.0];
    }
    assert MovingAverage(s)[2] == Some(20.0) by {
      MovingAverageNoGaps(s, 2);
      assert Values(s[0..3]) == [10.0, 20.0, 30.0];
      assert [10.0, 20.0, 30.0][1..] == [20.0, 30.0];
      assert [20.0, 30.0][1..] == [30.0];
    }
  }

  /** The last two positions of the example, where the window is full. */
  lemma ExampleTail(s: seq<Option<real>>)
    requires s == [Some(10.0), Some(20.0), Some(30.0), Some(40.0), Some(50.0)]
    ensures MovingAverage(s)[3] == Some(25.0)
    ensures MovingAverage(s)[4] == Some(35.0)
  {
    assert MovingAverage(s)[3] == Some(25.0) by {
      FullWindow(s, 3);
      assert s[0].value + s[1].value + s[2].value + s[3].value == 100.0;
    }
    assert MovingAverage(s)[4] == Some(35.0) by {
      FullWindow(s, 4);
      assert s[1].value + s[2].value + s[3].value + s[4].value == 140.0;
    }
  }

  /** The series 10, 20, 30, 40, 50 averages to 10, 15, 20, 25, 35. */
  lemma MovingAverageExample()
    ensures MovingAverage([Some(10.0), Some(20.0), Some(30.0), Some(40.0), Some(50.0)])
      == [Some(10.0), Some(15.0), Some(20.0), Some(25.0), Some(35.0)]
  {
    var s := [Some(10.0), Some(20.0), Some(30.0), Some(40.0), Some(50.0)];
    ExampleHead(s);
    ExampleTail(s);
  }
}
