/** A loop that pushes each step's items onto a list and stops at the first
    step that fails (`?` inside a `for` loop): the steps' results, in order,
    flattened into one list or the first error. */
module Results {
  import opened Wrappers

  function Flatten<T>(rs: seq<Result<seq<T>>>): Result<seq<T>>
  {
    if rs == [] then Ok([])
    else
      match Flatten(rs[..|rs| - 1])
      case Err(e) => Err(e)
      case Ok(xs) =>
        match rs[|rs| - 1]
        case Err(e) => Err(e)
        case Ok(ys) => Ok(xs + ys)
  }

  /** One more step of the loop. */
  lemma FlattenSnoc<T>(rs: seq<Result<seq<T>>>, r: Result<seq<T>>)
    ensures Flatten(rs + [r]) ==
      match Flatten(rs)
      case Err(e) => Err(e)
      case Ok(xs) => (match r case Err(e) => Err(e) case Ok(ys) => Ok(xs + ys))
  {
    assert (rs + [r])[..|rs|] == rs;
  }

  /** Running the steps of `a` and then those of `b`. */
  lemma {:induction false} FlattenAppend<T>(a: seq<Result<seq<T>>>, b: seq<Result<seq<T>>>)
    ensures Flatten(a + b) ==
      match Flatten(a)
      case Err(e) => Err(e)
      case Ok(xs) => (match Flatten(b) case Err(e) => Err(e) case Ok(ys) => Ok(xs + ys))
    decreases |b|
  {
    if b == [] {
      assert a + b == a;
      if Flatten(a).Ok? {
        assert Flatten(a).value + [] == Flatten(a).value;
      }
    } else {
      var init := b[..|b| - 1];
      FlattenAppend(a, init);
      assert (a + b)[..|a + b| - 1] == a + init;
      if Flatten(a).Ok? && Flatten(init).Ok? && b[|b| - 1].Ok? {
        assert Flatten(a).value + (Flatten(init).value + b[|b| - 1].value)
          == (Flatten(a).value + Flatten(init).value) + b[|b| - 1].value;
      }
    }
  }

  /** Step `i` of the loop, in terms of the steps before it. */
  lemma FlattenStep<T>(rs: seq<Result<seq<T>>>, i: nat)
    requires i < |rs|
    ensures Flatten(rs[..i + 1]) ==
      match Flatten(rs[..i])
      case Err(e) => Err(e)
      case Ok(xs) => (match rs[i] case Err(e) => Err(e) case Ok(ys) => Ok(xs + ys))
  {
    assert rs[..i + 1][..i] == rs[..i];
  }

  /** The whole loop is its last prefix. */
  lemma FlattenAll<T>(rs: seq<Result<seq<T>>>)
    ensures Flatten(rs[..|rs|]) == Flatten(rs)
  {
    assert rs[..|rs|] == rs;
  }

  /** The loop fails exactly when some step fails, with the first failing step's error. */
  lemma {:induction false} FlattenErr<T>(rs: seq<Result<seq<T>>>)
    ensures Flatten(rs).Err? <==> exists i :: 0 <= i < |rs| && rs[i].Err?
    ensures Flatten(rs).Err? ==> exists i :: (0 <= i < |rs| && rs[i].Err? && Flatten(rs).message == rs[i].message
      && forall j :: 0 <= j < i ==> rs[j].Ok?)
  {
    if rs != [] {
      var init := rs[..|rs| - 1];
      FlattenErr(init);
      assert forall j :: 0 <= j < |init| ==> init[j] == rs[j];
      if Flatten(init).Ok? && rs[|rs| - 1].Err? {
        assert forall j :: 0 <= j < |rs| - 1 ==> rs[j].Ok?;
      }
    }
  }

  /** A failing step after successful ones ends the loop with its error. */
  lemma FlattenStepErr<T>(rs: seq<Result<seq<T>>>, j: nat, e: string)
    requires j < |rs| && Flatten(rs[..j]).Ok? && rs[j] == Err(e)
    ensures Flatten(rs) == Err(e)
  {
    assert rs[..j + 1] == rs[..j] + [rs[j]];
    FlattenSnoc(rs[..j], rs[j]);
    FlattenPrefixErr(rs, j + 1);
  }

  /** Once a prefix of the steps has failed, later steps change nothing. */
  lemma {:induction false} FlattenPrefixErr<T>(rs: seq<Result<seq<T>>>, k: nat)
    requires k <= |rs| && Flatten(rs[..k]).Err?
    ensures Flatten(rs) == Flatten(rs[..k])
    decreases |rs|
  {
    if k < |rs| {
      var init := rs[..|rs| - 1];
      assert init[..k] == rs[..k];
      FlattenPrefixErr(init, k);
    } else {
      assert rs[..k] == rs;
    }
  }

  /** In a successful loop every step succeeded, and every item comes from some step. */
  lemma {:induction false} FlattenOk<T>(rs: seq<Result<seq<T>>>)
    requires Flatten(rs).Ok?
    ensures forall i :: 0 <= i < |rs| ==> rs[i].Ok?
    ensures forall x :: x in Flatten(rs).value ==> exists i :: 0 <= i < |rs| && x in rs[i].value
  {
    if rs != [] {
      var init := rs[..|rs| - 1];
      FlattenOk(init);
      assert forall j :: 0 <= j < |init| ==> init[j] == rs[j];
    }
  }
}
