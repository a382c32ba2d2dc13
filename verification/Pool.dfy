/** IoServicePool: which service each new connection gets. */
module Pool {
  /** How often service i is the answer among the first k, going round n services. */
  function Count(n: nat, k: nat, i: nat): nat
    requires n >= 1
  {
    if k == 0 then 0 else Count(n, k - 1, i) + if (k - 1) % n == i then 1 else 0
  }

  class IoServicePool {
    var ioServices: seq<nat>  // the services, by number
    var next: nat
    ghost var given: seq<nat>  // what ioService has returned so far

    /** Where the next one comes from, and what every service has been given. */
    ghost predicate Valid()
      reads this
    {
      && (forall i :: 0 <= i < |ioServices| ==> ioServices[i] == i)
      && (|ioServices| == 0 ==> next == 0 && given == [])
      && (|ioServices| > 0 ==>
            && next == |given| % |ioServices|
            && forall k :: 0 <= k < |given| ==> given[k] == k % |ioServices|)
    }

    constructor (size: nat)
      ensures Valid() && |ioServices| == size && given == []
    {
      next, ioServices, given := 0, [], [];
      new;
      var i := 0;
      while i < size
        invariant i <= size && |ioServices| == i && next == 0 && given == []
        invariant forall j :: 0 <= j < i ==> ioServices[j] == j
      {
        ioServices := ioServices + [i];
        i := i + 1;
      }
    }

    method IoService() returns (service: nat)
      requires Valid() && |ioServices| >= 1
      modifies this`next, this`given
      ensures Valid()
      ensures service == old(next) && given == old(given) + [service]
    {
      service := ioServices[next];
      StepModulo(|given|, |ioServices|);
      next := next + 1;
      if next == |ioServices| {
        next := 0;
      }
      given := given + [service];
    }
  }

  lemma StepModulo(k: nat, n: nat)
    requires n >= 1
    ensures (k + 1) % n == if k % n + 1 == n then 0 else k % n + 1
    ensures (k + 1) / n == if k % n + 1 == n then k / n + 1 else k / n
  {
    var q, r := k / n, k % n;
    assert k == n * q + r;
    if r + 1 == n {
      assert k + 1 == n * (q + 1);
      DivModIs(k + 1, n, q + 1, 0);
    } else {
      DivModIs(k + 1, n, q, r + 1);
    }
  }

  lemma DivModIs(k: nat, n: nat, q: nat, r: nat)
    requires n >= 1 && r < n && k == n * q + r
    ensures k / n == q && k % n == r
  {
    var q', r' := k / n, k % n;
    assert k == n * q' + r';
    SameQuotient(n, q, r, q', r');
  }

  lemma SameQuotient(n: nat, q: int, r: int, q': int, r': int)
    requires n * q + r == n * q' + r' && 0 <= r < n && 0 <= r' < n
    ensures q == q' && r == r'
  {
    if q > q' { MulGap(n, q, q'); }
    if q < q' { MulGap(n, q', q); }
  }

  lemma MulGap(n: nat, q: int, q': int)
    requires q > q'
    ensures n * q >= n * q' + n
  {
    assert n * q == n * q' + n * (q - q');
    MulAtLeast(n, q - q');
  }

  lemma MulAtLeast(n: nat, d: nat)
    requires d >= 1
    ensures n * d >= n
  {}

  /** After k calls the first k mod n services have been given out once more than the others. */
  lemma {:induction false} RoundRobin(n: nat, k: nat, i: nat)
    requires n >= 1 && i < n
    ensures Count(n, k, i) == k / n + if i < k % n then 1 else 0
  {
    if k == 0 {
      assert 0 / n == 0 && 0 % n == 0;
    } else {
      RoundRobin(n, k - 1, i);
      StepModulo(k - 1, n);
    }
  }

  /** So no service is ever more than one connection ahead of another. */
  lemma Fairness(n: nat, k: nat, i: nat, j: nat)
    requires n >= 1 && i < n && j < n
    ensures -1 <= Count(n, k, i) - Count(n, k, j) <= 1
    ensures k % n == 0 ==> Count(n, k, i) == Count(n, k, j)
  {
    RoundRobin(n, k, i);
    RoundRobin(n, k, j);
  }

  /** Count is about what the pool really returned. */
  lemma {:induction false} GivenCount(n: nat, given: seq<nat>, i: nat)
    requires n >= 1 && forall k :: 0 <= k < |given| ==> given[k] == k % n
    ensures multiset(given)[i] == Count(n, |given|, i)
    decreases |given|
  {
    if given != [] {
      var init := given[..|given| - 1];
      assert given == init + [given[|given| - 1]];
      GivenCount(n, init, i);
    }
  }
}
