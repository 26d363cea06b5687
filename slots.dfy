/**
 * The index-addressed result slots of both pipelines: a result vector sized
 * to the number of inputs, and slot `i` receiving the transform of input
 * `i`.  The program starts one thread per slot; each writes only its own
 * slot and the caller joins them all before reading any, so the result is
 * the one this sequential loop computes.  An exception escaping a thread
 * ends the process; here it ends the run with the error of the first
 * failing slot.
 */
module Slots {
  import opened Outcomes

  /** The transform applied to every input, front to back, stopping at the first failure. */
  function MapAll<A, B>(f: A -> Result<B>, xs: seq<A>): (r: Result<seq<B>>)
    ensures r.Success? ==> |r.value| == |xs|
    decreases |xs|
  {
    if xs == [] then Success([])
    else match f(xs[0])
      case Failure(e) => Failure(e)
      case Success(y) =>
        match MapAll(f, xs[1..])
        case Failure(e) => Failure(e)
        case Success(ys) => Success([y] + ys)
  }

  /**
   * `MapAll` succeeds exactly when every input's transform does, and then
   * slot `i` holds the transform of input `i`; otherwise it reports the
   * error of the first input, in index order, whose transform failed.
   */
  lemma {:induction false} MapAllSlots<A, B>(f: A -> Result<B>, xs: seq<A>)
    ensures MapAll(f, xs).Success? <==> forall i :: 0 <= i < |xs| ==> f(xs[i]).Success?
    ensures MapAll(f, xs).Success? ==>
              |MapAll(f, xs).value| == |xs|
              && forall i :: 0 <= i < |xs| ==> MapAll(f, xs).value[i] == f(xs[i]).value
    ensures MapAll(f, xs).Failure? ==>
              exists k :: 0 <= k < |xs| && f(xs[k]) == Failure(MapAll(f, xs).error)
                          && forall i :: 0 <= i < k ==> f(xs[i]).Success?
    decreases |xs|
  {
    if xs != [] {
      MapAllSlots(f, xs[1..]);
      forall i | 0 < i < |xs| ensures xs[i] == xs[1..][i - 1] { }
      if f(xs[0]).Success? && MapAll(f, xs[1..]).Failure? {
        var k :| 0 <= k < |xs[1..]| && f(xs[1..][k]) == Failure(MapAll(f, xs[1..]).error)
                 && forall i :: 0 <= i < k ==> f(xs[1..][i]).Success?;
        assert f(xs[k + 1]) == Failure(MapAll(f, xs).error);
        assert forall i :: 0 <= i < k + 1 ==> f(xs[i]).Success?;
      } else if f(xs[0]).Success? {
        var r := MapAll(f, xs).value;
        assert r == [f(xs[0]).value] + MapAll(f, xs[1..]).value;
        forall i | 0 < i < |xs| ensures r[i] == f(xs[i]).value {
          assert r[i] == MapAll(f, xs[1..]).value[i - 1];
        }
      }
    }
  }

  /**
   * Fills a pre-sized array of result slots by index and returns it, or
   * the first failure in index order.
   */
  method FillSlots<A, B(0)>(f: A -> Result<B>, xs: seq<A>) returns (r: Result<seq<B>>)
    ensures r.Success? <==> forall i :: 0 <= i < |xs| ==> f(xs[i]).Success?
    ensures r.Success? ==>
              |r.value| == |xs| && forall i :: 0 <= i < |xs| ==> r.value[i] == f(xs[i]).value
    ensures r.Failure? ==>
              exists k :: 0 <= k < |xs| && f(xs[k]) == Failure(r.error)
                          && forall i :: 0 <= i < k ==> f(xs[i]).Success?
    ensures r == MapAll(f, xs)
  {
    var slots := new B[|xs|];
    var i := 0;
    while i < |xs|
      invariant 0 <= i <= |xs|
      invariant forall k :: 0 <= k < i ==> f(xs[k]).Success? && slots[k] == f(xs[k]).value
    {
      var out := f(xs[i]);
      if out.Failure? {
        r := Failure(out.error);
        MapAllSlots(f, xs);
        var k :| 0 <= k < |xs| && f(xs[k]) == Failure(MapAll(f, xs).error)
                 && forall j :: 0 <= j < k ==> f(xs[j]).Success?;
        assert k == i;
        return;
      }
      slots[i] := out.value;
      i := i + 1;
    }
    r := Success(slots[..]);
    MapAllSlots(f, xs);
    assert r.value == MapAll(f, xs).value;
  }
}
