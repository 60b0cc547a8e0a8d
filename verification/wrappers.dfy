/** Failure-carrying values used throughout the model. */
module Wrappers {

  datatype Option<+T> = None | Some(value: T) {
    function GetOr(default: T): T {
      match this
      case Some(v) => v
      case None => default
    }
  }

  datatype Result<+T, +E> = Success(value: T) | Failure(error: E)

  /** `f` applied to every element, or `None` as soon as one application fails. */
  function MapAll<A, B>(xs: seq<A>, f: A -> Option<B>): (r: Option<seq<B>>)
    ensures r.Some? ==> |r.value| == |xs|
    decreases |xs|
  {
    if xs == [] then Some([])
    else
      var n := |xs| - 1;
      var init := MapAll(xs[..n], f);
      var last := f(xs[n]);
      if init.Some? && last.Some? then Some(init.value + [last.value]) else None
  }

  /** The application succeeds exactly when `f` does on every element, and then gives `f`'s values in order. */
  lemma {:induction false} MapAllSpec<A, B>(xs: seq<A>, f: A -> Option<B>)
    ensures MapAll(xs, f).Some? <==> forall i :: 0 <= i < |xs| ==> f(xs[i]).Some?
    ensures MapAll(xs, f).Some? ==> forall i :: 0 <= i < |xs| ==> MapAll(xs, f).value[i] == f(xs[i]).value
    decreases |xs|
  {
    if xs != [] {
      var n := |xs| - 1;
      MapAllSpec(xs[..n], f);
      assert forall i :: 0 <= i < n ==> xs[..n][i] == xs[i];
      var init := MapAll(xs[..n], f);
      if init.Some? && f(xs[n]).Some? {
        assert forall i :: 0 <= i < n ==> (init.value + [f(xs[n]).value])[i] == init.value[i];
      }
    }
  }

  /** One failing element makes the whole application fail, whatever follows it. */
  lemma MapAllAppendNone<A, B>(xs: seq<A>, ys: seq<A>, f: A -> Option<B>)
    requires MapAll(xs, f) == None
    ensures MapAll(xs + ys, f) == None
  {
    MapAllSpec(xs, f);
    MapAllSpec(xs + ys, f);
    var i :| 0 <= i < |xs| && f(xs[i]).None?;
    assert (xs + ys)[i] == xs[i];
  }

  lemma MapAllAppendNone3<A, B>(xs: seq<A>, ys: seq<A>, zs: seq<A>, f: A -> Option<B>)
    requires MapAll(xs + ys, f) == None
    ensures MapAll(xs + (ys + zs), f) == None
  {
    assert xs + (ys + zs) == (xs + ys) + zs;
    MapAllAppendNone(xs + ys, zs, f);
  }

  /** Applying `f` to two sequences one after the other is applying it to their concatenation. */
  lemma MapAllAppend<A, B>(xs: seq<A>, ys: seq<A>, f: A -> Option<B>)
    ensures MapAll(xs + ys, f) ==
      if MapAll(xs, f).Some? && MapAll(ys, f).Some? then Some(MapAll(xs, f).value + MapAll(ys, f).value) else None
  {
    var r := MapAll(xs + ys, f);
    MapAllSpec(xs, f);
    MapAllSpec(ys, f);
    MapAllSpec(xs + ys, f);
    if MapAll(xs, f).Some? && MapAll(ys, f).Some? {
      assert forall i :: 0 <= i < |ys| ==> (xs + ys)[|xs| + i] == ys[i];
      assert r.Some?;
      assert r.value == MapAll(xs, f).value + MapAll(ys, f).value;
    } else if MapAll(xs, f).None? {
      MapAllAppendNone(xs, ys, f);
    } else {
      var i :| 0 <= i < |ys| && f(ys[i]).None?;
      assert (xs + ys)[|xs| + i] == ys[i];
    }
  }

  lemma MapAllSnoc<A, B>(xs: seq<A>, x: A, f: A -> Option<B>)
    ensures MapAll(xs + [x], f) ==
      if MapAll(xs, f).Some? && f(x).Some? then Some(MapAll(xs, f).value + [f(x).value]) else None
  {
    assert (xs + [x])[..|xs|] == xs;
  }

  /** `xs.findIndex(p)` as an option: the position of the first element satisfying `p`. */
  function FindIndex<T>(xs: seq<T>, p: T -> bool): (r: Option<nat>)
    ensures r.Some? ==> r.value < |xs| && p(xs[r.value]) && forall j :: 0 <= j < r.value ==> !p(xs[j])
    ensures r.None? ==> forall j :: 0 <= j < |xs| ==> !p(xs[j])
    decreases |xs|
  {
    if xs == [] then None
    else if p(xs[0]) then Some(0)
    else
      match FindIndex(xs[1..], p)
      case None => None
      case Some(j) => Some(j + 1)
  }
}
