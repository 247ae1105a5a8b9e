/** Option and Result values used for Python's `None` and for the exceptions the modelled code raises. */
module Wrappers {

  datatype Option<+T> = None | Some(value: T)

  datatype Result<+T, +E> = Ok(value: T) | Err(error: E)

  /** `s[:n]` in Python: the first `n` elements, or all of `s` when it is shorter. */
  function Take<T>(s: seq<T>, n: int): (r: seq<T>)
    ensures |r| == if 0 <= n <= |s| then n else if n < 0 then 0 else |s|
    ensures forall i :: 0 <= i < |r| ==> r[i] == s[i]
  {
    if n <= 0 then [] else if n < |s| then s[..n] else s
  }

  /** The elements of `s` at the indices `idx`, in the order of `idx`. */
  function Gather<T>(s: seq<T>, idx: seq<nat>): (r: seq<T>)
    requires forall k :: 0 <= k < |idx| ==> idx[k] < |s|
    ensures |r| == |idx| && forall k :: 0 <= k < |idx| ==> r[k] == s[idx[k]]
  {
    seq(|idx|, k requires 0 <= k < |idx| => s[idx[k]])
  }

  /** A prefix one longer is the prefix with the next element appended. */
  lemma TakeSnoc<T>(s: seq<T>, j: nat)
    requires j < |s|
    ensures s[..j + 1] == s[..j] + [s[j]]
  {
  }

  /** Sum of a sequence of naturals. */
  function Sum(s: seq<nat>): nat
  {
    if s == [] then 0 else Sum(s[..|s| - 1]) + s[|s| - 1]
  }

  lemma {:induction false} SumAppend(s: seq<nat>, t: seq<nat>)
    ensures Sum(s + t) == Sum(s) + Sum(t)
  {
    if t == [] {
      assert s + t == s;
    } else {
      assert (s + t)[..|s + t| - 1] == s + t[..|t| - 1];
      SumAppend(s, t[..|t| - 1]);
    }
  }

  lemma {:induction false} SumIncrement(s: seq<nat>, i: nat)
    requires i < |s|
    ensures Sum(s[i := s[i] + 1]) == Sum(s) + 1
  {
    var t := s[i := s[i] + 1];
    assert s == s[..i] + [s[i]] + s[i + 1..];
    assert t == s[..i] + [s[i] + 1] + s[i + 1..];
    SumAppend(s[..i] + [s[i]], s[i + 1..]);
    SumAppend(s[..i], [s[i]]);
    SumAppend(s[..i] + [s[i] + 1], s[i + 1..]);
    SumAppend(s[..i], [s[i] + 1]);
    assert Sum([s[i]]) == s[i] by { assert [s[i]][..0] == []; }
    assert Sum([s[i] + 1]) == s[i] + 1 by { assert [s[i] + 1][..0] == []; }
  }

  /** `list.index(x)` in Python: the position of the first `x` in `s`. */
  function IndexOf<T(==)>(s: seq<T>, x: T): (i: nat)
    requires x in s
    ensures i < |s| && s[i] == x && x !in s[..i]
  {
    if s[0] == x then 0 else IndexOf(s[1..], x) + 1
  }

  lemma {:induction false} IndexOfPrefix<T>(s: seq<T>, t: seq<T>, x: T)
    requires x in s
    ensures IndexOf(s + t, x) == IndexOf(s, x)
  {
    assert (s + t)[IndexOf(s, x)] == x;
  }

  /**
   * Runs steps that may fail in order, as a Python loop does when one of them raises:
   * all the values when every step succeeds, else the error of the first step that fails.
   */
  function Collect<T, E>(rs: seq<Result<T, E>>): (r: Result<seq<T>, E>)
    ensures r.Ok? <==> forall i :: 0 <= i < |rs| ==> rs[i].Ok?
    ensures r.Ok? ==> |r.value| == |rs| && forall i :: 0 <= i < |rs| ==> rs[i] == Ok(r.value[i])
    ensures r.Err? ==> exists i :: 0 <= i < |rs| && rs[i] == Err(r.error) && forall j :: 0 <= j < i ==> rs[j].Ok?
  {
    if rs == [] then Ok([])
    else
      var init := rs[..|rs| - 1];
      assert forall i :: 0 <= i < |init| ==> init[i] == rs[i];
      match Collect(init)
      case Err(e) => Err(e)
      case Ok(vs) =>
        match rs[|rs| - 1]
        case Err(e) => Err(e)
        case Ok(v) => Ok(vs + [v])
  }

  /** The failure of `Collect` is the failure of the first failing step. */
  lemma {:induction false} CollectFirstError<T, E>(rs: seq<Result<T, E>>, j: nat)
    requires j < |rs| && rs[j].Err? && forall m :: 0 <= m < j ==> rs[m].Ok?
    ensures Collect(rs) == Err(rs[j].error)
  {
    var r := Collect(rs);
    if r.Err? {
      var i :| 0 <= i < |rs| && rs[i] == Err(r.error) && forall m :: 0 <= m < i ==> rs[m].Ok?;
      assert !(i < j) && !(j < i);
    }
  }

  /** One more success extends a prefix of successes. */
  lemma OkPrefixStep<T, E>(rs: seq<Result<T, E>>, i: nat)
    requires i < |rs| && rs[i].Ok? && forall m :: 0 <= m < i ==> rs[m].Ok?
    ensures forall m :: 0 <= m < i + 1 ==> rs[m].Ok?
  {
  }

  /** The step whose error `Collect` reports: every earlier step succeeded. */
  lemma CollectFailure<T, E>(rs: seq<Result<T, E>>) returns (i: nat)
    requires Collect(rs).Err?
    ensures i < |rs| && rs[i] == Err(Collect(rs).error) && forall m :: 0 <= m < i ==> rs[m].Ok?
  {
    i :| 0 <= i < |rs| && rs[i] == Err(Collect(rs).error) && forall m :: 0 <= m < i ==> rs[m].Ok?;
  }

  /** When every step succeeds, `Collect` gives exactly their values. */
  lemma {:induction false} CollectAllOk<T, E>(rs: seq<Result<T, E>>, vs: seq<T>)
    requires |vs| == |rs| && forall m :: 0 <= m < |rs| ==> rs[m] == Ok(vs[m])
    ensures Collect(rs) == Ok(vs)
  {
    var r := Collect(rs);
    assert r.Ok?;
    assert r.value == vs;
  }

  /** The first value present, scanning in order (a loop that returns its first non-`None` result). */
  function FirstSome<T>(s: seq<Option<T>>): (r: Option<T>)
    ensures r.None? <==> forall i :: 0 <= i < |s| ==> s[i].None?
    ensures r.Some? ==> exists i :: 0 <= i < |s| && s[i] == r && forall j :: 0 <= j < i ==> s[j].None?
  {
    if s == [] then None
    else if s[0].Some? then s[0]
    else
      var rest := s[1..];
      assert forall i :: 0 <= i < |rest| ==> rest[i] == s[i + 1];
      FirstSome(rest)
  }

  /** The concatenation of a sequence of sequences. */
  function Concat<T>(ss: seq<seq<T>>): seq<T>
  {
    if ss == [] then [] else ss[0] + Concat(ss[1..])
  }

  lemma {:induction false} ConcatAppend<T>(a: seq<seq<T>>, b: seq<seq<T>>)
    ensures Concat(a + b) == Concat(a) + Concat(b)
  {
    if a != [] {
      assert (a + b)[1..] == a[1..] + b;
      ConcatAppend(a[1..], b);
    } else {
      assert a + b == b;
    }
  }

  /** Concatenation takes the last piece off the end. */
  lemma ConcatSnoc<T>(ss: seq<seq<T>>)
    requires |ss| > 0
    ensures Concat(ss) == Concat(ss[..|ss| - 1]) + ss[|ss| - 1]
  {
    var init, last := ss[..|ss| - 1], ss[|ss| - 1];
    assert ss == init + [last];
    ConcatAppend(init, [last]);
    assert [last][1..] == [];
    assert Concat([last]) == last + Concat([]);
  }
}
