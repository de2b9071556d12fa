/** Result and Outcome values standing for the exceptions the validators raise. */
module Wrappers {

  datatype Option<+T> = None | Some(value: T)

  /** A computation that either produced a value or raised an error. */
  datatype Result<+T, +E> = Success(value: T) | Failure(error: E)

  /** A step that either ran to completion or raised an error. */
  datatype Outcome<+E> = Pass | Fail(error: E)

  /** `[x]` when `c` holds, nothing otherwise. */
  function When<T>(c: bool, x: T): seq<T>
  {
    if c then [x] else []
  }

  /** Runs `a`, then `b`, concatenating what they produced; the first error wins. */
  function Then<T, E>(a: Result<seq<T>, E>, b: Result<seq<T>, E>): (r: Result<seq<T>, E>)
    ensures r.Success? <==> a.Success? && b.Success?
    ensures r.Success? ==> r.value == a.value + b.value
    ensures a.Failure? ==> r == a
    ensures a.Success? && b.Failure? ==> r.Failure? && r.error == b.error
  {
    match a
    case Failure(e) => Failure(e)
    case Success(xs) =>
      match b
      case Failure(e) => Failure(e)
      case Success(ys) => Success(xs + ys)
  }

  /** Runs each computation in order, concatenating their outputs; the first error wins. */
  function JoinAll<T, E>(rs: seq<Result<seq<T>, E>>): Result<seq<T>, E>
  {
    if rs == [] then Success([]) else Then(JoinAll(rs[..|rs| - 1]), rs[|rs| - 1])
  }

  /** A single computation joined on its own is that computation. */
  lemma JoinAllOne<T, E>(rs: seq<Result<seq<T>, E>>)
    ensures |rs| == 1 ==> JoinAll(rs) == rs[0]
  {
    if |rs| == 1 {
      assert rs[..0] == [];
      if rs[0].Success? {
        assert [] + rs[0].value == rs[0].value;
      }
    }
  }

  /** Runs each computation in order, keeping each output; the first error wins. */
  function Collect<T, E>(rs: seq<Result<T, E>>): (r: Result<seq<T>, E>)
    ensures r.Success? <==> forall i :: 0 <= i < |rs| ==> rs[i].Success?
    ensures r.Success? ==> |r.value| == |rs| && forall i :: 0 <= i < |rs| ==> rs[i] == Success(r.value[i])
    ensures r.Failure? ==>
              exists i :: 0 <= i < |rs| && rs[i] == Failure(r.error) && forall j :: 0 <= j < i ==> rs[j].Success?
  {
    if rs == [] then Success([])
    else
      var n := |rs| - 1;
      var prev := Collect(rs[..n]);
      assert forall i :: 0 <= i < n ==> rs[..n][i] == rs[i];
      if prev.Failure? then prev
      else if rs[n].Failure? then Failure(rs[n].error)
      else
        var vs := prev.value + [rs[n].value];
        assert forall i :: 0 <= i < n ==> vs[i] == prev.value[i];
        Success(vs)
  }

  /** Concatenation regrouped; a hint for sequences built by appending. */
  lemma AppendAssoc<T>(a: seq<T>, b: seq<T>, c: seq<T>)
    ensures (a + b) + c == a + (b + c)
  {
  }

  /** Computations that all yield `v` collect to outputs that are all `v`. */
  lemma CollectConst<T, E>(rs: seq<Result<T, E>>, v: T)
    requires forall i :: 0 <= i < |rs| ==> rs[i] == Success(v)
    ensures Collect(rs).Success? && forall i :: 0 <= i < |Collect(rs).value| ==> Collect(rs).value[i] == v
  {
  }

  /** Computations before `i` that all succeed, then one that fails: the whole run fails with its error. */
  lemma CollectStopsAt<T, E>(rs: seq<Result<T, E>>, i: nat)
    requires i < |rs| && Collect(rs[..i]).Success? && rs[i].Failure?
    ensures Collect(rs) == Failure(rs[i].error)
  {
    assert forall j :: 0 <= j < i ==> rs[..i][j] == rs[j];
    var k :| 0 <= k < |rs| && rs[k] == Failure(Collect(rs).error) && forall j :: 0 <= j < k ==> rs[j].Success?;
    assert k == i;
  }

  /** One more successful computation adds its output at the end. */
  lemma CollectStep<T, E>(rs: seq<Result<T, E>>, i: nat, acc: seq<T>)
    requires i < |rs| && Collect(rs[..i]) == Success(acc) && rs[i].Success?
    ensures Collect(rs[..i + 1]) == Success(acc + [rs[i].value])
  {
    assert rs[..i + 1][..i] == rs[..i];
  }

  /** The total length of the outputs of the successful computations. */
  function TotalLength<T, E>(rs: seq<Result<seq<T>, E>>): nat
  {
    if rs == [] then 0
    else TotalLength(rs[..|rs| - 1]) + if rs[|rs| - 1].Success? then |rs[|rs| - 1].value| else 0
  }

  /** JoinAll succeeds iff every computation does. */
  lemma {:induction false} JoinAllSucceeds<T, E>(rs: seq<Result<seq<T>, E>>)
    ensures JoinAll(rs).Success? <==> forall i :: 0 <= i < |rs| ==> rs[i].Success?
  {
    if rs != [] {
      var n := |rs| - 1;
      JoinAllSucceeds(rs[..n]);
      assert forall i :: 0 <= i < n ==> rs[..n][i] == rs[i];
    }
  }

  /** When JoinAll fails, it reports the error of the first computation that failed. */
  lemma {:induction false} JoinAllFirstFailure<T, E>(rs: seq<Result<seq<T>, E>>)
    requires JoinAll(rs).Failure?
    ensures exists i :: 0 <= i < |rs| && rs[i] == Failure(JoinAll(rs).error) &&
              forall j :: 0 <= j < i ==> rs[j].Success?
  {
    var n := |rs| - 1;
    var init := rs[..n];
    assert forall i :: 0 <= i < n ==> init[i] == rs[i];
    if JoinAll(init).Failure? {
      JoinAllFirstFailure(init);
      var i :| 0 <= i < n && init[i] == Failure(JoinAll(init).error) &&
               forall j :: 0 <= j < i ==> init[j].Success?;
      assert rs[i] == Failure(JoinAll(rs).error);
    } else {
      JoinAllSucceeds(init);
      assert rs[n] == Failure(JoinAll(rs).error);
    }
  }

  /** A successful JoinAll is as long as all outputs together. */
  lemma {:induction false} JoinAllLength<T, E>(rs: seq<Result<seq<T>, E>>)
    requires JoinAll(rs).Success?
    ensures |JoinAll(rs).value| == TotalLength(rs)
  {
    if rs != [] {
      JoinAllLength(rs[..|rs| - 1]);
    }
  }

  /** A successful JoinAll holds output i at its offset, the total length of the outputs before it. */
  lemma {:induction false} JoinAllOffset<T, E>(rs: seq<Result<seq<T>, E>>, i: nat)
    requires JoinAll(rs).Success? && i < |rs|
    ensures rs[i].Success?
    ensures TotalLength(rs[..i]) + |rs[i].value| <= |JoinAll(rs).value|
    ensures JoinAll(rs).value[TotalLength(rs[..i])..TotalLength(rs[..i]) + |rs[i].value|] == rs[i].value
  {
    var n := |rs| - 1;
    var init := rs[..n];
    var before := JoinAll(init).value;
    assert JoinAll(rs).value == before + rs[n].value;
    if i < n {
      JoinAllOffset(init, i);
      assert init[..i] == rs[..i];
    } else {
      assert rs[..i] == init;
      JoinAllLength(init);
    }
  }
}
