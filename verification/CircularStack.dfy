/** VCircularStack: a ring indexed by a running count, read as the log of what was pushed. */
module CircularStack {
  import opened Collections

  // ----- Indices modulo the ring size -----

  lemma AtLeast(d: int, N: nat)
    requires d >= 1
    ensures d * N >= N
  {
    assert d * N == N + (d - 1) * N;
    assert (d - 1) * N >= 0;
  }

  lemma ModUnique(k: nat, N: nat, q: int, r: nat)
    requires r < N && k == q * N + r
    ensures k % N == r
  {
    var q', r' := k / N, k % N;
    assert k == q' * N + r';
    if q < q' {
      AtLeast(q' - q, N);
    } else if q' < q {
      AtLeast(q - q', N);
    }
  }

  /** Moving on by `d` less than a round, the cell moves on by `d` or wraps once. */
  lemma CellPlus(j: nat, d: nat, N: nat)
    requires d < N
    ensures j % N < N && j % N <= j
    ensures (j + d) % N == if j % N + d < N then j % N + d else j % N + d - N
  {
    var q, r := j / N, j % N;
    assert j == q * N + r && q >= 0;
    if r + d < N {
      ModUnique(j + d, N, q, r + d);
    } else {
      assert (q + 1) * N == q * N + N;
      ModUnique(j + d, N, q + 1, r + d - N);
    }
  }

  /** A full round returns to the same cell. */
  lemma CellRound(j: nat, N: nat)
    requires N > 0
    ensures (j + N) % N == j % N
  {
    var q, r := j / N, j % N;
    assert j == q * N + r;
    assert (q + 1) * N == q * N + N;
    ModUnique(j + N, N, q + 1, r);
  }

  // ----- The log -----

  /** The newest `n` entries of a log. */
  function Newest<T>(log: seq<T>, n: nat): (r: seq<T>)
    requires n <= |log|
    ensures |r| == n
  {
    log[|log| - n..]
  }

  /** What a ring of size N retains of a log. */
  function Retained<T>(log: seq<T>, N: nat): seq<T> {
    Newest(log, Min(|log|, N))
  }

  /** The log after a read: emptied, or, once the ring has wrapped, cut down to the entries
      pushed since it last filled up. */
  function AfterGet<T>(log: seq<T>, N: nat, reset: bool): seq<T>
    requires N > 0
  {
    if reset then [] else if |log| >= N then Newest(log, |log| % N) else log
  }

  // ----- Runs -----

  datatype Op<T> = Push(t: T) | Clear | Get(reset: bool)

  /** The log after a run of operations on a new ring. */
  function LogOf<T>(ops: seq<Op<T>>, N: nat): seq<T>
    requires N > 0
  {
    if ops == [] then []
    else
      var log := LogOf(ops[..|ops| - 1], N);
      match ops[|ops| - 1]
      case Push(t) => log + [t]
      case Clear => []
      case Get(reset) => AfterGet(log, N, reset)
  }

  /** Everything pushed since the last clear or resetting read. */
  function Since<T>(ops: seq<Op<T>>): seq<T> {
    if ops == [] then []
    else
      var s := Since(ops[..|ops| - 1]);
      match ops[|ops| - 1]
      case Push(t) => s + [t]
      case Clear => []
      case Get(reset) => if reset then [] else s
  }

  predicate OnlyResets<T>(ops: seq<Op<T>>) {
    forall i | 0 <= i < |ops| :: ops[i] != Get(false)
  }

  lemma NewestOfNewest<T>(s: seq<T>, a: nat, b: nat)
    requires b <= a <= |s|
    ensures Newest(Newest(s, a), b) == Newest(s, b)
  {
  }

  lemma NewestPush<T>(s: seq<T>, a: nat, t: T)
    requires a <= |s|
    ensures Newest(s, a) + [t] == Newest(s + [t], a + 1)
  {
  }

  lemma {:induction false} LogIsNewest<T>(ops: seq<Op<T>>, N: nat)
    requires N > 0
    ensures |LogOf(ops, N)| <= |Since(ops)|
    ensures LogOf(ops, N) == Newest(Since(ops), |LogOf(ops, N)|)
    decreases |ops|
  {
    if ops != [] {
      var before := ops[..|ops| - 1];
      var log, s := LogOf(before, N), Since(before);
      LogIsNewest(before, N);
      match ops[|ops| - 1] {
        case Push(t) => NewestPush(s, |log|, t);
        case Clear =>
        case Get(reset) =>
          CellPlus(|log|, 0, N);
          NewestOfNewest(s, |log|, |log| % N);
      }
    }
  }

  lemma {:induction false} ResetsLoseNothing<T>(ops: seq<Op<T>>, N: nat)
    requires N > 0 && OnlyResets(ops)
    ensures LogOf(ops, N) == Since(ops)
    decreases |ops|
  {
    if ops != [] {
      ResetsLoseNothing(ops[..|ops| - 1], N);
      assert ops[|ops| - 1] != Get(false);
    }
  }

  /** After any run, what is retained are the newest entries pushed since the last reset, in
      order and without gaps; the newest min(k, N) of k if every read so far reset. */
  lemma {:induction false} RetainsNewest<T>(ops: seq<Op<T>>, N: nat)
    requires N > 0
    ensures |LogOf(ops, N)| <= |Since(ops)|
    ensures Retained(LogOf(ops, N), N) == Newest(Since(ops), Min(|LogOf(ops, N)|, N))
    ensures OnlyResets(ops) ==> Retained(LogOf(ops, N), N) == Newest(Since(ops), Min(|Since(ops)|, N))
  {
    LogIsNewest(ops, N);
    NewestOfNewest(Since(ops), |LogOf(ops, N)|, Min(|LogOf(ops, N)|, N));
    if OnlyResets(ops) {
      ResetsLoseNothing(ops, N);
    }
  }

  /** What is still retained after a read that does not reset: all of it exactly while the
      ring has not wrapped, else only the entries since it last filled up. */
  lemma GetKeepsIff<T>(log: seq<T>, N: nat)
    requires N > 0
    ensures Retained(AfterGet(log, N, false), N) == Newest(log, if |log| < N then |log| else |log| % N)
    ensures Retained(AfterGet(log, N, false), N) == Retained(log, N) <==> |log| < N
  {
    CellPlus(|log|, 0, N);
  }

  function Pushes<T>(t: T, n: nat): seq<Op<T>> {
    if n == 0 then [] else Pushes(t, n - 1) + [Push(t)]
  }

  lemma {:induction false} LogOfPushes<T>(t: T, n: nat, N: nat)
    requires N > 0
    ensures |LogOf(Pushes(t, n), N)| == n && |Pushes(t, n)| == n
  {
    if n > 0 {
      LogOfPushes(t, n - 1, N);
      assert Pushes(t, n)[..n - 1] == Pushes(t, n - 1);
    }
  }

  /** A run that shows it: after exactly N pushes a read that does not reset leaves nothing. */
  lemma FullGetEmpties<T>(t: T, N: nat)
    requires N > 0
    ensures |Retained(LogOf(Pushes(t, N), N), N)| == N
    ensures LogOf(Pushes(t, N) + [Get(false)], N) == []
  {
    var ops := Pushes(t, N);
    LogOfPushes(t, N, N);
    assert (ops + [Get(false)])[..|ops|] == ops;
    CellRound(0, N);
  }

  // ----- The ring -----

  /** std::copy of the elements `from` to `to`. */
  method Copy<T>(src: array<T>, from: nat, to: nat, dst: array<T>, at: nat)
    requires src != dst && from <= to <= src.Length && at + (to - from) <= dst.Length
    modifies dst
    ensures dst[at..at + (to - from)] == src[from..to]
    ensures dst[..at] == old(dst[..at])
    ensures dst[at + (to - from)..] == old(dst[at + (to - from)..])
  {
    forall i | 0 <= i < to - from {
      dst[at + i] := src[from + i];
    }
  }

  /** The cells from `r` on, then those before it. */
  method CopyAround<T>(src: array<T>, r: nat, dst: array<T>)
    requires src != dst && r <= src.Length <= dst.Length
    modifies dst
    ensures dst[..src.Length] == src[r..] + src[..r]
    ensures dst[src.Length..] == old(dst[src.Length..])
  {
    var N := src.Length;
    Copy(src, r, N, dst, 0);
    if r > 0 {
      Copy(src, 0, r, dst, N - r);
    }
    assert dst[..N] == dst[..N - r] + dst[N - r..N];
  }

  /** Every entry the ring still has lies in its cell. */
  ghost predicate InCells<T>(cells: seq<T>, log: seq<T>) {
    |cells| > 0 && forall j | |log| - |cells| <= j < |log| && 0 <= j :: cells[j % |cells|] == log[j]
  }

  /** A ring that has wrapped, read from the index on and then up to it, is the newest N
      entries; the cells before the index are the entries since the ring last filled. */
  lemma WrappedRing<T>(cells: seq<T>, log: seq<T>)
    requires InCells(cells, log) && |log| >= |cells|
    ensures var r := |log| % |cells|;
            && r < |cells|
            && cells[r..] + cells[..r] == Newest(log, |cells|)
            && cells[..r] == Newest(log, r)
  {
    var N, k := |cells|, |log|;
    var r := k % N;
    CellRound(k - N, N);
    CellPlus(k - N, 0, N);
    forall i | 0 <= i < N ensures (cells[r..] + cells[..r])[i] == log[k - N + i] {
      CellPlus(k - N, i, N);
    }
  }

  /** In a ring that has not wrapped the cells are the log. */
  lemma FreshCells<T>(cells: seq<T>, log: seq<T>)
    requires InCells(cells, log) && |log| < |cells|
    ensures cells[..|log|] == log
  {
    forall i | 0 <= i < |log| ensures cells[i] == log[i] {
      CellPlus(0, i, |cells|);
    }
  }

  lemma FreshRing<T>(cells: seq<T>, log: seq<T>)
    requires |log| < |cells| && cells[..|log|] == log
    ensures InCells(cells, log)
  {
    forall j | 0 <= j < |log| ensures cells[j % |cells|] == log[j] {
      CellPlus(0, j, |cells|);
    }
  }

  class CircularStack<T(0)> {
    const N: nat
    const datas: array<T>
    var index: nat

    /** The pushes the index still counts. */
    ghost var log: seq<T>

    ghost predicate Valid()
      reads this, datas
    {
      && N > 0 && datas.Length == N
      && index == |log|
      && InCells(datas[..], log)
    }

    constructor (n: nat)
      requires n > 0
      ensures Valid() && N == n && log == [] && fresh(datas)
    {
      N := n;
      datas := new T[n];
      index, log := 0, [];
    }

    method PushBack(t: T)
      requires Valid()
      modifies this, datas
      ensures Valid() && log == old(log) + [t]
    {
      ghost var k := index;
      datas[index % N] := t;
      forall j | k + 1 - N <= j < k && 0 <= j ensures j % N != k % N {
        CellPlus(j, k - j, N);
      }
      index := index + 1;
      log := log + [t];
    }

    method Clear()
      requires Valid()
      modifies this
      ensures Valid() && log == []
    {
      index, log := 0, [];
    }

    /** Copies out what is retained, oldest first. */
    method Get(data_: array<T>, bReset: bool) returns (n: nat)
      requires Valid() && data_ != datas && data_.Length >= N
      modifies this, data_
      ensures Valid() && log == AfterGet(old(log), N, bReset)
      ensures n == Min(|old(log)|, N)
      ensures data_[..n] == Retained(old(log), N)
      ensures data_[n..] == old(data_[n..])
    {
      n := 0;
      if index >= N {
        WrappedRing(datas[..], log);
        index := index % N;
        CopyAround(datas, index, data_);
        n := N;
        log := Newest(log, index);
        FreshRing(datas[..], log);
      } else if index > 0 {
        FreshCells(datas[..], log);
        Copy(datas, 0, index, data_, 0);
        n := index;
        assert data_[..n] == datas[..n] == log;
      }
      if bReset {
        index, log := 0, [];
      }
    }
  }
}
