/** Running a fallible step over a sequence in order, keeping the values it
    yields: the shape of a Python loop that appends to a list and lets the
    first exception escape. */
module Collecting {
  import opened Wrappers

  /** The values yielded by `step` over `xs`, in order; the first error
      stops the run and is the result. `CollectSound` and
      `CollectComplete` say which values the output holds. */
  function Collect<X, Y>(xs: seq<X>, step: X --> Result<Option<Y>>): (r: Result<seq<Y>>)
    requires forall i :: 0 <= i < |xs| ==> step.requires(xs[i])
    ensures r.Err? <==> exists i :: 0 <= i < |xs| && step(xs[i]).Err?
    ensures r.Ok? ==> |r.value| <= |xs|
  {
    if |xs| == 0 then Ok([])
    else
      match step(xs[0])
      case Err(e) => Err(e)
      case Ok(head) =>
        var rest := Collect(xs[1..], step);
        assert forall i :: 1 <= i < |xs| ==> xs[i] == xs[1..][i - 1];
        match rest
        case Err(e) => Err(e)
        case Ok(tail) => Ok(Emit(head) + tail)
  }

  /** Every output value was yielded by the step on some input. */
  lemma {:induction false} CollectSound<X, Y>(xs: seq<X>, step: X --> Result<Option<Y>>)
    requires forall i :: 0 <= i < |xs| ==> step.requires(xs[i])
    ensures var r := Collect(xs, step);
      r.Ok? ==> forall k :: 0 <= k < |r.value| ==> exists i :: 0 <= i < |xs| && step(xs[i]) == Ok(Some(r.value[k]))
  {
    var r := Collect(xs, step);
    if |xs| > 0 && r.Ok? {
      var tl := xs[1..];
      CollectSound(tl, step);
      var head := step(xs[0]).value;
      var tail := Collect(tl, step).value;
      assert r.value == Emit(head) + tail;
      forall k | 0 <= k < |r.value|
        ensures exists i :: 0 <= i < |xs| && step(xs[i]) == Ok(Some(r.value[k]))
      {
        if k < |Emit(head)| {
          assert step(xs[0]) == Ok(Some(r.value[k]));
        } else {
          assert r.value[k] == tail[k - |Emit(head)|];
          var i :| 0 <= i < |tl| && step(tl[i]) == Ok(Some(tail[k - |Emit(head)|]));
          assert xs[i + 1] == tl[i];
        }
      }
    }
  }

  /** Every value the step yields on an input is in the output. */
  lemma {:induction false} CollectComplete<X, Y>(xs: seq<X>, step: X --> Result<Option<Y>>)
    requires forall i :: 0 <= i < |xs| ==> step.requires(xs[i])
    ensures var r := Collect(xs, step);
      r.Ok? ==> forall i :: 0 <= i < |xs| && step(xs[i]).Ok? && step(xs[i]).value.Some? ==>
        exists k :: 0 <= k < |r.value| && r.value[k] == step(xs[i]).value.value
  {
    var r := Collect(xs, step);
    if |xs| > 0 && r.Ok? {
      var tl := xs[1..];
      CollectComplete(tl, step);
      var head := step(xs[0]).value;
      var tail := Collect(tl, step).value;
      assert r.value == Emit(head) + tail;
      forall i | 0 <= i < |xs| && step(xs[i]).Ok? && step(xs[i]).value.Some?
        ensures exists k :: 0 <= k < |r.value| && r.value[k] == step(xs[i]).value.value
      {
        if i == 0 {
          assert r.value[0] == head.value;
        } else {
          assert tl[i - 1] == xs[i];
          var k :| 0 <= k < |tail| && tail[k] == step(tl[i - 1]).value.value;
          assert r.value[k + |Emit(head)|] == tail[k];
        }
      }
    }
  }

  /** A failed run fails with the error the step gave on some item. */
  lemma {:induction false} CollectError<X, Y>(xs: seq<X>, step: X --> Result<Option<Y>>)
    requires forall i :: 0 <= i < |xs| ==> step.requires(xs[i])
    ensures Collect(xs, step).Err? ==>
      exists i :: 0 <= i < |xs| && step(xs[i]) == Err(Collect(xs, step).error)
  {
    if |xs| > 0 && Collect(xs, step).Err? && step(xs[0]).Ok? {
      var tl := xs[1..];
      CollectError(tl, step);
      var i :| 0 <= i < |tl| && step(tl[i]) == Err(Collect(tl, step).error);
      assert xs[i + 1] == tl[i];
    }
  }

  /** A run over one item gives that item's value, if any, or its error;
      with `CollectAppend` this fixes one output slot per item, in order. */
  lemma CollectOne<X, Y>(x: X, step: X --> Result<Option<Y>>)
    requires step.requires(x)
    ensures Collect([x], step) == match step(x) case Err(e) => Err(e) case Ok(h) => Ok(Emit(h))
  {
    assert [x][1..] == [];
    match step(x)
    case Err(_) =>
    case Ok(h) => assert Emit(h) + [] == Emit(h);
  }

  /** Nothing, or the one value yielded. */
  function Emit<Y>(head: Option<Y>): (s: seq<Y>)
    ensures head.None? ==> s == []
    ensures head.Some? ==> s == [head.value]
  {
    if head.Some? then [head.value] else []
  }

  /** Both runs succeed and their outputs are concatenated, or the
      combination fails. */
  function Join<Y>(a: Result<seq<Y>>, b: Result<seq<Y>>): Result<seq<Y>> {
    match a
    case Err(e) => Err(e)
    case Ok(u) =>
      match b
      case Err(e) => Err(e)
      case Ok(v) => Ok(u + v)
  }

  /** Collecting over `xs + ys` is collecting over `xs`, then over `ys`:
      the output keeps the input's order. */
  lemma {:induction false} CollectAppend<X, Y>(xs: seq<X>, ys: seq<X>, step: X --> Result<Option<Y>>)
    requires forall i :: 0 <= i < |xs| ==> step.requires(xs[i])
    requires forall i :: 0 <= i < |ys| ==> step.requires(ys[i])
    ensures forall i :: 0 <= i < |xs + ys| ==> step.requires((xs + ys)[i])
    ensures Collect(xs + ys, step) == Join(Collect(xs, step), Collect(ys, step))
  {
    assert forall i :: 0 <= i < |xs + ys| ==> (xs + ys)[i] == if i < |xs| then xs[i] else ys[i - |xs|];
    if |xs| > 0 {
      assert (xs + ys)[0] == xs[0];
      assert (xs + ys)[1..] == xs[1..] + ys;
      CollectAppend(xs[1..], ys, step);
      match step(xs[0])
      case Err(_) =>
      case Ok(head) =>
        match Collect(xs[1..], step)
        case Err(_) =>
        case Ok(u) =>
          match Collect(ys, step)
          case Err(_) =>
          case Ok(v) =>
            assert Emit(head) + (u + v) == (Emit(head) + u) + v;
    } else {
      assert xs + ys == ys;
      match Collect(ys, step)
      case Err(_) =>
      case Ok(v) => assert [] + v == v;
    }
  }
}
