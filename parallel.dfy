/**
 * The worker-splitting rules of cogent/util/parallel.py: communicators seen as a rank
 * and a size, the communicator stack behind `mpi_context`, the group-count search of
 * `getSplitCommunicators`, the chunked parallel `map` and the phase/stride arithmetic of
 * `ParaRandom`. All processes are modelled at once; no real concurrency is involved.
 */
module Parallel {
  import opened Wrappers

  /**
   * A communicator: the one-process stand-in `_FakeCommunicator`, the world group
   * seen from process `rank`, or the result of `MPI_Comm_split` on a parent with one
   * of the two colourings `getSplitCommunicators` uses (`byBlock`: colour `rank // g`,
   * otherwise colour `rank % g`; the key is always the parent rank).
   */
  datatype Communicator =
    | Fake
    | World(rank: nat, size: nat)
    | Split(parent: Communicator, byBlock: bool, g: nat)

  /** The exceptions raised in this file. */
  datatype Failure = AssertionError | IndexError

  function Size(c: Communicator): nat
  {
    match c
    case Fake => 1
    case World(_, size) => size
    case Split(p, byBlock, g) => if byBlock then g else if g == 0 then 0 else Size(p) / g
  }

  function Rank(c: Communicator): nat
  {
    match c
    case Fake => 0
    case World(rank, _) => rank
    case Split(p, byBlock, g) => if g == 0 then 0 else if byBlock then Rank(p) % g else Rank(p) / g
  }

  /** A communicator that MPI could hand out: a rank below the size, splits into groups that divide the parent. */
  ghost predicate Valid(c: Communicator)
  {
    match c
    case Fake => true
    case World(rank, size) => rank < size
    case Split(p, _, g) => Valid(p) && 1 <= g && Size(p) % g == 0
  }

  /** Every valid communicator has at least one process, and the caller's rank is one of them. */
  lemma {:induction false} ValidRankBelowSize(c: Communicator)
    requires Valid(c)
    ensures Rank(c) < Size(c)
  {
    match c
    case Fake =>
    case World(_, _) =>
    case Split(p, byBlock, g) =>
      ValidRankBelowSize(p);
      if !byBlock {
        DivBelow(Rank(p), Size(p), g);
      }
  }

  lemma {:induction false} DivBelow(r: nat, n: nat, g: nat)
    requires r < n && 1 <= g && n % g == 0
    ensures r / g < n / g
  {
    var q := n / g;
    assert n == g * q;
    assert g * (r / g) <= r;
    if r / g >= q {
      MulMonotone(g, q, r / g);
      assert false;
    }
  }

  lemma {:induction false} MulMonotone(g: nat, a: nat, b: nat)
    requires a <= b
    ensures g * a <= g * b
  {
    assert g * b == g * a + g * (b - a);
  }

  /**
   * Splitting a valid group of `size` processes by blocks of `g` and by position within
   * a block: the two halves are valid, their sizes multiply to `size`, and a rank is
   * recovered from its ranks in the halves.
   */
  lemma {:induction false} SplitArithmetic(comm: Communicator, g: nat)
    requires Valid(comm) && 1 <= g && Size(comm) % g == 0
    ensures Valid(Split(comm, true, g)) && Valid(Split(comm, false, g))
    ensures Size(Split(comm, true, g)) * Size(Split(comm, false, g)) == Size(comm)
    ensures Rank(comm) == Rank(Split(comm, false, g)) * g + Rank(Split(comm, true, g))
  {
    var n, r := Size(comm), Rank(comm);
    assert Size(Split(comm, true, g)) == g && Size(Split(comm, false, g)) == n / g;
    assert Rank(Split(comm, true, g)) == r % g && Rank(Split(comm, false, g)) == r / g;
    DivMod(n, g);
    DivMod(r, g);
  }

  lemma DivMod(x: nat, g: nat)
    requires 1 <= g
    ensures x == (x / g) * g + x % g && g * (x / g) == (x / g) * g
  {
  }

  /** What every rank receives from `allgather`: the contributions of all ranks, in rank order. */
  function AllGather<V>(c: Communicator, contribution: nat -> V): (r: seq<V>)
    ensures |r| == Size(c)
    ensures forall rank :: 0 <= rank < |r| ==> r[rank] == contribution(rank)
  {
    seq(Size(c), rank requires 0 <= rank => contribution(rank))
  }

  /** What `allreduce(value, op)` returns: the contributions of all ranks combined with `op`, in rank order. */
  function AllReduce<V>(c: Communicator, contribution: nat -> V, op: (V, V) -> V): V
    requires Size(c) >= 1
  {
    Fold(AllGather(c, contribution), op)
  }

  function Fold<V>(s: seq<V>, op: (V, V) -> V): V
    requires |s| >= 1
  {
    if |s| == 1 then s[0] else op(Fold(s[..|s| - 1], op), s[|s| - 1])
  }

  /** What every rank receives from `bcast(obj, source)`: the object of the source rank. */
  function Bcast<V>(c: Communicator, contribution: nat -> V, source: nat): (r: V)
    requires source < Size(c)
    ensures r == AllGather(c, contribution)[source]
  {
    contribution(source)
  }

  /** The colourings of `_FakeCommunicator.Split`: both halves are the fake itself. */
  function FakeSplit(colour: int, key: int): (Communicator, Communicator)
  {
    (Fake, Fake)
  }

  /**
   * `_FakeCommunicator` behaves as a one-process group: rank 0, size 1, `allgather`
   * returns the caller's value alone, while `allreduce` and `bcast` return it unchanged,
   * and `Split` hands back the fake twice.
   */
  lemma FakeIsOneProcess<V>(v: V, op: (V, V) -> V, colour: int, key: int)
    ensures Rank(Fake) == 0 && Size(Fake) == 1 && Valid(Fake)
    ensures AllGather(Fake, _ => v) == [v]
    ensures AllReduce(Fake, _ => v, op) == v
    ensures Bcast(Fake, _ => v, 0) == v
    ensures FakeSplit(colour, key) == (Fake, Fake)
  {
    assert AllGather(Fake, _ => v) == [v];
  }

  /** `g` is the least divisor of `size` that is at least `low`. */
  ghost predicate LeastDivisorFrom(g: nat, size: nat, low: nat)
  {
    && low <= g <= size && g >= 1 && size % g == 0
    && forall d :: 0 < d && low <= d < g ==> size % d != 0
  }

  function Min(a: int, b: int): int
  {
    if a < b then a else b
  }

  /**
   * The list `_ParallelisationStack`: the communicator on top is the current one.
   * It starts as the fake communicator or the world communicator.
   */
  class ParallelisationStack {
    var comms: seq<Communicator>

    constructor (initial: Communicator)
      ensures comms == [initial]
    {
      comms := [initial];
    }

    /** `getCommunicator()`. */
    function Current(): Communicator
      reads this
      requires |comms| > 0
    {
      comms[|comms| - 1]
    }

    /**
     * `getSplitCommunicators(jobs)`: the group count is the least divisor of the size of
     * the current communicator that is at least `min(jobs, size)`. `next` spans the
     * groups of `group_count` consecutive ranks, `sub` the processes at the same place
     * within their group, so that rank = rank in `sub` * group count + rank in `next`.
     */
    method GetSplitCommunicators(jobs: int) returns (r: Result<(Communicator, Communicator), Failure>)
      requires |comms| > 0 && Valid(Current())
      ensures r.Ok? <==> jobs > 0
      ensures r.Err? ==> r.error == AssertionError
      ensures r.Ok? ==>
        var (next, sub) := r.value;
        var comm := Current();
        && Valid(next) && Valid(sub)
        && LeastDivisorFrom(Size(next), Size(comm), Min(jobs, Size(comm)))
        && Size(next) * Size(sub) == Size(comm)
        && Rank(comm) == Rank(sub) * Size(next) + Rank(next)
        && (Size(next) == 1 ==> next == Fake && sub == comm)
        && (Size(next) == Size(comm) && Size(comm) > 1 ==> next == comm && sub == Fake)
    {
      var comm := comms[|comms| - 1];
      if jobs <= 0 {
        return Err(AssertionError);
      }
      ValidRankBelowSize(comm);
      var size, rank := Size(comm), Rank(comm);
      var groupCount := Min(jobs, size);
      while size % groupCount != 0
        invariant Min(jobs, size) <= groupCount <= size
        invariant forall d :: 0 < d && Min(jobs, size) <= d < groupCount ==> size % d != 0
        decreases size - groupCount
      {
        groupCount := groupCount + 1;
      }
      var next, sub;
      if groupCount == 1 {
        next, sub := Fake, comm;
        assert rank == rank / 1 * 1 + 0;
      } else if groupCount == size {
        next, sub := comm, Fake;
      } else {
        next := Split(comm, true, groupCount);
        sub := Split(comm, false, groupCount);
        SplitArithmetic(comm, groupCount);
      }
      return Ok((next, sub));
    }

    /** Entering `mpi_context(comm)`: the communicator is pushed. */
    method Enter(comm: Communicator)
      modifies this
      ensures comms == old(comms) + [comm]
    {
      comms := comms + [comm];
    }

    /** Leaving `mpi_context(comm)`: the top is popped, and it must be `comm`. */
    method Exit(comm: Communicator) returns (r: Result<(), Failure>)
      modifies this
      ensures old(comms) == [] ==> comms == old(comms) && r == Err(IndexError)
      ensures old(comms) != [] ==> comms == old(comms)[..|old(comms)| - 1]
      ensures old(comms) != [] ==> (r.Ok? <==> old(comms)[|old(comms)| - 1] == comm)
      ensures r.Err? && old(comms) != [] ==> r.error == AssertionError
    {
      if comms == [] {
        return Err(IndexError);
      }
      var popped := comms[|comms| - 1];
      comms := comms[..|comms| - 1];
      if popped != comm {
        return Err(AssertionError);
      }
      return Ok(());
    }

    /**
     * A `with mpi_context(comm):` block whose body runs the nested blocks in order and
     * then, if `raises` is set, raises. The `finally` clause pops even when the body
     * raises, so the stack is always restored and the popped communicator is always
     * `comm`.
     */
    method RunContext(s: Scope) returns (raised: bool)
      modifies this
      ensures comms == old(comms)
      ensures raised == Raises(s)
      decreases s, 1
    {
      Enter(s.comm);
      raised := RunBody(s.body);
      if !raised {
        raised := s.raises;
      }
      var popped := Exit(s.comm);
      assert popped.Ok?;
    }

    /** Runs nested blocks in order until one raises. */
    method RunBody(body: seq<Scope>) returns (raised: bool)
      modifies this
      ensures comms == old(comms)
      ensures raised == exists i :: 0 <= i < |body| && Raises(body[i])
      decreases body, 0
    {
      raised := false;
      var i := 0;
      while i < |body| && !raised
        invariant 0 <= i <= |body| && comms == old(comms)
        invariant raised == exists j :: 0 <= j < i && Raises(body[j])
        decreases |body| - i
      {
        raised := RunContext(body[i]);
        i := i + 1;
      }
    }

    /**
     * `map(f, s)`: split the current communicator by `len(s)`, make `sub` current for the
     * duration, and let the processes of `next` evaluate `f` on the chunks.
     */
    method Map<T, U>(f: T -> U, s: seq<T>) returns (r: Result<seq<U>, Failure>)
      requires |comms| > 0 && Valid(Current())
      modifies this
      ensures comms == old(comms)
      ensures |s| == 0 ==> r == Err(AssertionError)
      ensures |s| > 0 ==> r == Ok(seq(|s|, i requires 0 <= i < |s| => f(s[i])))
    {
      var split := GetSplitCommunicators(|s|);
      if split.Err? {
        return Err(split.error);
      }
      var (next, sub) := split.value;
      Enter(sub);
      ValidRankBelowSize(next);
      var result := MapChunks(next, f, s);
      var popped := Exit(sub);
      assert popped.Ok?;
      return Ok(result);
    }
  }

  /** A `with mpi_context(comm):` block: nested blocks run in order, and the body may raise after them. */
  datatype Scope = Scope(comm: Communicator, body: seq<Scope>, raises: bool)

  /** Whether running the block lets an exception out. */
  ghost predicate Raises(s: Scope)
  {
    s.raises || exists i :: 0 <= i < |s.body| && Raises(s.body[i])
  }

  /**
   * The loop of `map` over the chunks `s[start:start+size]`: on every chunk each rank
   * below the chunk's length evaluates `f` on its element, the others contribute
   * `None`, the `allgather` is truncated to the chunk's length and appended.
   */
  method MapChunks<T, U>(comm: Communicator, f: T -> U, s: seq<T>) returns (result: seq<U>)
    requires Size(comm) >= 1
    ensures result == seq(|s|, i requires 0 <= i < |s| => f(s[i]))
  {
    var size := Size(comm);
    result := [];
    var start := 0;
    while start < |s|
      invariant 0 <= start < |s| + size
      invariant |result| == Min(start, |s|)
      invariant forall i :: 0 <= i < |result| ==> result[i] == f(s[i])
      decreases |s| - start
    {
      var chunk := Take(s[start..], size);
      var gathered := AllGather(comm, (rank: nat) => if rank < |chunk| then Some(f(chunk[rank])) else None);
      var split := Take(gathered, |chunk|);
      var values := seq(|split|, i requires 0 <= i < |split| => split[i].value);
      result := result + values;
      start := start + size;
    }
  }

  /**
   * `ParaRandom(rng, num_proc, rank)`: the wrapped generator is the stream of values it
   * will return from the moment it is wrapped, `pos` the number of values drawn since.
   */
  class ParaRandom {
    var stream: nat -> real
    var pos: nat
    const numProc: nat
    const rank: nat
    ghost var calls: nat

    ghost predicate Valid()
      reads this
    {
      pos == rank + calls * (numProc + 1)
    }

    /** Construction discards `rank` draws, so the first call returns draw number `rank`. */
    constructor (rng: nat -> real, numProc: nat := 1, rank: nat := 0)
      ensures Valid() && calls == 0 && pos == rank
      ensures this.numProc == numProc && this.rank == rank && stream == rng
    {
      this.stream := rng;
      this.numProc := numProc;
      this.rank := rank;
      this.calls := 0;
      var p := 0;
      for i := 0 to rank
        invariant p == i
      {
        p := p + 1;
      }
      this.pos := p;
    }

    /** `random()`: the current draw, then `num_proc` more are skipped. */
    method Random() returns (r: real)
      requires Valid()
      modifies this
      ensures Valid() && calls == old(calls) + 1
      ensures r == stream(Draw(rank, numProc, old(calls)))
      ensures stream == old(stream)
    {
      r := stream(pos);
      pos := pos + 1;
      for i := 0 to numProc
        invariant pos == old(pos) + 1 + i
        invariant stream == old(stream) && calls == old(calls)
      {
        pos := pos + 1;
      }
      calls := calls + 1;
      assert pos == rank + old(calls) * (numProc + 1) + (numProc + 1);
    }

    /** `seed(arg)`: the wrapped generator restarts on a new stream; the phase of this rank is not restored. */
    method Seed(reseeded: nat -> real)
      modifies this
      ensures stream == reseeded && pos == 0 && calls == old(calls)
    {
      stream := reseeded;
      pos := 0;
    }
  }

  /** The position in the wrapped stream of the `k`-th value a rank draws. */
  function Draw(rank: nat, numProc: nat, k: nat): nat
  {
    rank + k * (numProc + 1)
  }

  /**
   * Generators over the same stream with distinct ranks, each at most `num_proc`,
   * never return the same draw, whatever the number of calls each has made.
   */
  lemma {:induction false} DrawsDisjoint(numProc: nat, rank1: nat, rank2: nat, k1: nat, k2: nat)
    requires rank1 <= numProc && rank2 <= numProc && rank1 != rank2
    ensures Draw(rank1, numProc, k1) != Draw(rank2, numProc, k2)
  {
    DrawPhase(rank1, numProc, k1);
    DrawPhase(rank2, numProc, k2);
  }

  /** The phase of a draw modulo `num_proc + 1` is the rank that made it. */
  lemma {:induction false} DrawPhase(rank: nat, numProc: nat, k: nat)
    requires rank <= numProc
    ensures Draw(rank, numProc, k) % (numProc + 1) == rank
  {
    ModUnique(Draw(rank, numProc, k), numProc + 1, k, rank);
  }

  /** Euclidean division is unique: `x == q * m + r` with `0 <= r < m` fixes `x % m` to `r`. */
  lemma {:induction false} ModUnique(x: int, m: int, q: int, r: int)
    requires 0 <= r < m && x == q * m + r
    ensures x % m == r
  {
    var q', r' := x / m, x % m;
    assert m * q' + r' == x;
    assert m * (q - q') == r' - r;
    if q - q' >= 1 {
      MulMonotone(m, 1, q - q');
      assert false;
    } else if q' - q >= 1 {
      MulMonotone(m, 1, q' - q);
      assert false;
    }
  }
}
