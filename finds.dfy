/** The collection walks the engine is built from: `Array.prototype.find`
    and lodash `every`, with plain and throwing callbacks. Each stops at the
    first element that decides the outcome. */
module Finds {
  import opened Results

  /** The index `find` stops at: the first element the callback accepts. */
  function FindIndex<T>(xs: seq<T>, p: T -> bool): (r: Option<nat>)
    ensures r.Some? ==> r.value < |xs| && p(xs[r.value])
    ensures r.Some? ==> forall j :: 0 <= j < r.value ==> !p(xs[j])
    ensures r.None? <==> forall j :: 0 <= j < |xs| ==> !p(xs[j])
  {
    if xs == [] then None
    else if p(xs[0]) then Some(0)
    else match FindIndex(xs[1..], p)
      case None => None
      case Some(k) => Some(k + 1)
  }

  /** `find` stops at the first element its callback accepts. */
  lemma {:induction false} FindIndexIsFirst<T>(xs: seq<T>, p: T -> bool, i: nat)
    requires i < |xs| && p(xs[i])
    requires forall j :: 0 <= j < i ==> !p(xs[j])
    ensures FindIndex(xs, p) == Some(i)
  {
    if i > 0 {
      FindIndexIsFirst(xs[1..], p, i - 1);
    }
  }

  /** lodash `every` with a callback that cannot throw. */
  function Every<T>(xs: seq<T>, p: T -> bool): (r: bool)
    ensures r <==> forall i :: 0 <= i < |xs| ==> p(xs[i])
  {
    if xs == [] then true
    else p(xs[0]) && Every(xs[1..], p)
  }

  /** `find` with a callback that may throw: the exception of the first
      callback that throws before any accepts, else the index `find` stops
      at. */
  function FindR<T>(xs: seq<T>, p: T -> Result<bool>): (r: Result<Option<nat>>)
    ensures r.Ok? && r.value.Some? ==>
      r.value.value < |xs| && p(xs[r.value.value]) == Ok(true) &&
      (forall j :: 0 <= j < r.value.value ==> p(xs[j]) == Ok(false))
    ensures r == Ok(None) <==> forall j :: 0 <= j < |xs| ==> p(xs[j]) == Ok(false)
    ensures r.Err? ==>
      exists i :: 0 <= i < |xs| && p(xs[i]).Err? && (forall j :: 0 <= j < i ==> p(xs[j]) == Ok(false))
  {
    if xs == [] then Ok(None)
    else match p(xs[0])
      case Err(e) => Err(e)
      case Ok(true) => Ok(Some(0))
      case Ok(false) =>
        match FindR(xs[1..], p)
        case Err(e) => Err(e)
        case Ok(None) => Ok(None)
        case Ok(Some(k)) => Ok(Some(k + 1))
  }

  /** `find` over a single element is that element's callback. */
  lemma FindROne<T>(x: T, p: T -> Result<bool>)
    ensures p(x).Err? ==> FindR([x], p).Err?
    ensures p(x) == Ok(true) ==> FindR([x], p) == Ok(Some(0))
    ensures p(x) == Ok(false) ==> FindR([x], p) == Ok(None)
  {
    assert [x][1..] == [];
  }

  /** A callback that accepts nothing and throws somewhere makes `find`
      throw. */
  lemma FindRThrows<T>(xs: seq<T>, p: T -> Result<bool>, k: nat)
    requires k < |xs| && p(xs[k]).Err?
    requires forall j :: 0 <= j < |xs| ==> p(xs[j]) != Ok(true)
    ensures FindR(xs, p).Err?
  {
    assert p(xs[k]) != Ok(false);
  }

  /** lodash `every` with a callback that may throw. */
  function EveryR<T>(xs: seq<T>, p: T -> Result<bool>): (r: Result<bool>)
    ensures r == Ok(true) <==> forall i :: 0 <= i < |xs| ==> p(xs[i]) == Ok(true)
    ensures r == Ok(false) ==>
      exists i :: 0 <= i < |xs| && p(xs[i]) == Ok(false) && (forall j :: 0 <= j < i ==> p(xs[j]) == Ok(true))
    ensures r.Err? ==>
      exists i :: 0 <= i < |xs| && p(xs[i]).Err? && (forall j :: 0 <= j < i ==> p(xs[j]) == Ok(true))
  {
    if xs == [] then Ok(true)
    else match p(xs[0])
      case Err(e) => Err(e)
      case Ok(false) => Ok(false)
      case Ok(true) => EveryR(xs[1..], p)
  }

  /** With a callback that throws on none of the elements, `FindR` is
      `FindIndex`. */
  lemma {:induction false} FindROfTotal<T>(xs: seq<T>, p: T -> Result<bool>, q: T -> bool)
    requires forall i :: 0 <= i < |xs| ==> p(xs[i]) == Ok(q(xs[i]))
    ensures FindR(xs, p) == Ok(FindIndex(xs, q))
  {
    if xs != [] {
      assert p(xs[0]) == Ok(q(xs[0]));
      FindROfTotal(xs[1..], p, q);
    }
  }

  /** With a callback that throws on none of the elements, `EveryR` is
      `Every`. */
  lemma {:induction false} EveryROfTotal<T>(xs: seq<T>, p: T -> Result<bool>, q: T -> bool)
    requires forall i :: 0 <= i < |xs| ==> p(xs[i]) == Ok(q(xs[i]))
    ensures EveryR(xs, p) == Ok(Every(xs, q))
  {
    if xs != [] {
      assert p(xs[0]) == Ok(q(xs[0]));
      EveryROfTotal(xs[1..], p, q);
    }
  }

  /** What `find` decides within a prefix, it decides for the whole list. */
  lemma {:induction false} FindRPrefix<T>(xs: seq<T>, ys: seq<T>, p: T -> Result<bool>)
    requires FindR(xs, p) != Ok(None)
    ensures FindR(xs + ys, p) == FindR(xs, p)
  {
    assert xs != [];
    assert (xs + ys)[0] == xs[0];
    if p(xs[0]) == Ok(false) {
      assert (xs + ys)[1..] == xs[1..] + ys;
      FindRPrefix(xs[1..], ys, p);
    }
  }

  /** A callback that accepts an element after rejecting every earlier
      one makes `find` stop there. */
  lemma {:induction false} FindRAt<T>(xs: seq<T>, p: T -> Result<bool>, i: nat)
    requires i < |xs| && p(xs[i]) == Ok(true)
    requires forall j :: 0 <= j < i ==> p(xs[j]) == Ok(false)
    ensures FindR(xs, p) == Ok(Some(i))
  {
    if i > 0 {
      FindRAt(xs[1..], p, i - 1);
    }
  }

  /** Some element is accepted, and every element before it is rejected
      without an exception: where a throwing `find` stops with a hit. */
  ghost predicate FirstAccepted<T>(xs: seq<T>, p: T -> Result<bool>) {
    exists i :: 0 <= i < |xs| && p(xs[i]) == Ok(true) && forall j :: 0 <= j < i ==> p(xs[j]) == Ok(false)
  }

  /** A throwing `find` hits exactly when some element is accepted before
      any callback throws. */
  lemma FindRHits<T>(xs: seq<T>, p: T -> Result<bool>)
    ensures (FindR(xs, p).Ok? && FindR(xs, p).value.Some?) <==> FirstAccepted(xs, p)
  {
    var found := FindR(xs, p);
    if found.Ok? && found.value.Some? {
      var i := found.value.value;
      assert p(xs[i]) == Ok(true);
    }
    if FirstAccepted(xs, p) {
      var i :| 0 <= i < |xs| && p(xs[i]) == Ok(true) && forall j :: 0 <= j < i ==> p(xs[j]) == Ok(false);
      FindRAt(xs, p, i);
    }
  }
}
