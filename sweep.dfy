/**
 The result of `main` in src/main.rs: one thread per candidate i in [2, N] sends
 i down a channel when `is_prime(i)` holds; the main thread pushes every value
 it receives onto a vector and sorts the vector.

 Threads are replaced by a sequential loop over the candidates, and the channel
 by the multiset of values sent and not yet received. The receiving loop takes
 an arbitrary element of that multiset, so every arrival order the scheduler
 could produce is covered.
 */
module PrimeSweep {
  import opened Primality

  /** Every element is at most the next ones. */
  predicate Ascending(s: seq<nat>)
  {
    forall i, j :: 0 <= i < j < |s| ==> s[i] <= s[j]
  }

  /** Every element is smaller than the next ones: ascending, without repeats. */
  predicate StrictlyAscending(s: seq<nat>)
  {
    forall i, j :: 0 <= i < j < |s| ==> s[i] < s[j]
  }

  lemma StrictlyAscendingIsAscending(s: seq<nat>)
    requires StrictlyAscending(s)
    ensures Ascending(s)
  {
  }

  /** The primes in [2, n], in ascending order: what the program prints for the upper limit n. */
  ghost function PrimesUpTo(n: nat): seq<nat>
  {
    if n < 2 then []
    else if Prime(n) then PrimesUpTo(n - 1) + [n]
    else PrimesUpTo(n - 1)
  }

  /** PrimesUpTo(n) holds exactly the primes p with 2 <= p <= n. */
  lemma {:induction false} PrimesUpToMembers(n: nat)
    ensures forall p :: p in PrimesUpTo(n) <==> 2 <= p <= n && Prime(p)
  {
    if n >= 2 {
      PrimesUpToMembers(n - 1);
    }
  }

  /** PrimesUpTo(n) is strictly ascending, so it lists each prime once. */
  lemma {:induction false} PrimesUpToAscending(n: nat)
    ensures StrictlyAscending(PrimesUpTo(n))
  {
    if n >= 2 {
      PrimesUpToAscending(n - 1);
      PrimesUpToMembers(n - 1);
      var below := PrimesUpTo(n - 1);
      assert forall i | 0 <= i < |below| :: below[i] in below;
    }
  }

  /** Inserts x into an ascending sequence, keeping it ascending. */
  function Insert(x: nat, s: seq<nat>): (r: seq<nat>)
    requires Ascending(s)
    ensures Ascending(r)
    ensures multiset(r) == multiset(s) + multiset{x}
  {
    if s == [] || x <= s[0] then [x] + s
    else
      assert s == [s[0]] + s[1..];
      var rest := Insert(x, s[1..]);
      assert forall j | 0 <= j < |rest| :: s[0] <= rest[j] by {
        forall j | 0 <= j < |rest| ensures s[0] <= rest[j] {
          assert rest[j] in multiset(rest);
          if rest[j] != x {
            assert rest[j] in s[1..];
          }
        }
      }
      [s[0]] + rest
  }

  /** `Vec::sort` on the collected values: an ascending permutation of its input. */
  function SortAscending(s: seq<nat>): (r: seq<nat>)
    ensures Ascending(r)
    ensures multiset(r) == multiset(s)
  {
    if s == [] then []
    else
      assert s == [s[0]] + s[1..];
      Insert(s[0], SortAscending(s[1..]))
  }

  /** Two ascending sequences with the same elements, counted with multiplicity, are equal. */
  lemma {:induction false} AscendingPermutationUnique(a: seq<nat>, b: seq<nat>)
    requires Ascending(a) && Ascending(b)
    requires multiset(a) == multiset(b)
    ensures a == b
  {
    if a == [] || b == [] {
      assert |multiset(a)| == |a| && |multiset(b)| == |b|;
    } else {
      assert a[0] in multiset(b);
      assert b[0] in multiset(a);
      assert a[0] == b[0];
      assert a == [a[0]] + a[1..];
      assert b == [b[0]] + b[1..];
      assert multiset(a[1..]) == multiset(b[1..]) by {
        assert multiset(a) == multiset([a[0]]) + multiset(a[1..]);
        assert multiset(b) == multiset([b[0]]) + multiset(b[1..]);
        assert multiset(a[1..]) == multiset(a) - multiset([a[0]]);
        assert multiset(b[1..]) == multiset(b) - multiset([b[0]]);
      }
      AscendingPermutationUnique(a[1..], b[1..]);
    }
  }

  /**
   The spawning loop of `main`: the thread for each candidate i in [2, n] sends
   i when `is_prime(i)` holds. The channel ends up holding every prime in
   [2, n] exactly once.
   */
  method SendPassingCandidates(n: nat) returns (channel: multiset<nat>)
    requires n < U32_LIMIT
    ensures channel == multiset(PrimesUpTo(n))
  {
    channel := multiset{};
    var i: nat := 2;
    while i <= n
      invariant 2 <= i && (n >= 2 ==> i <= n + 1) && (n < 2 ==> i == 2)
      invariant channel == multiset(PrimesUpTo(i - 1))
    {
      var passes := IsPrime(i);
      if passes {
        assert multiset(PrimesUpTo(i)) == multiset(PrimesUpTo(i - 1)) + multiset{i};
        channel := channel + multiset{i};
      }
      i := i + 1;
    }
    if n < 2 {
      assert PrimesUpTo(i - 1) == [] == PrimesUpTo(n);
    }
  }

  /**
   The receiving loop of `main`: every value is taken from the channel in
   whatever order it arrives and pushed onto the vector, so the vector ends up
   holding what was sent, each value as often as it was sent.
   */
  method ReceiveAll(channel: multiset<nat>) returns (received: seq<nat>)
    ensures multiset(received) == channel
  {
    var pending := channel;
    received := [];
    while pending != multiset{}
      invariant multiset(received) + pending == channel
      decreases |pending|
    {
      var p :| p in pending;
      assert multiset(received + [p]) == multiset(received) + multiset{p};
      received := received + [p];
      pending := pending - multiset{p};
    }
  }

  /**
   The net effect of `main`: whatever order the primes arrive in, the sorted
   vector is the ascending list of exactly the primes in [2, n], each once.
   */
  method Sweep(n: nat) returns (primes: seq<nat>)
    requires n < U32_LIMIT
    ensures primes == PrimesUpTo(n)
    ensures StrictlyAscending(primes)
    ensures forall p :: p in primes <==> 2 <= p <= n && Prime(p)
  {
    var channel := SendPassingCandidates(n);
    primes := ReceiveAll(channel);
    primes := SortAscending(primes);
    PrimesUpToAscending(n);
    StrictlyAscendingIsAscending(PrimesUpTo(n));
    AscendingPermutationUnique(primes, PrimesUpTo(n));
    PrimesUpToMembers(n);
  }

  /** The results listed for the upper limits 0, 1, 10 and 20. */
  lemma SweepExamples()
    ensures PrimesUpTo(0) == [] && PrimesUpTo(1) == []
    ensures PrimesUpTo(10) == [2, 3, 5, 7]
    ensures PrimesUpTo(20) == [2, 3, 5, 7, 11, 13, 17, 19]
  {
    assert PrimesUpTo(2) == [2] by { PrimeEarlyExits(2); }
    assert PrimesUpTo(3) == [2, 3] by { PrimeEarlyExits(3); }
    assert PrimesUpTo(4) == [2, 3] by { NotPrimeByDivisor(4, 2); }
    assert PrimesUpTo(5) == [2, 3, 5] by { PrimeByTrialDivision(5, 3); }
    assert PrimesUpTo(6) == [2, 3, 5] by { NotPrimeByDivisor(6, 2); }
    assert PrimesUpTo(7) == [2, 3, 5, 7] by { PrimeByTrialDivision(7, 3); }
    assert PrimesUpTo(8) == [2, 3, 5, 7] by { NotPrimeByDivisor(8, 2); }
    assert PrimesUpTo(9) == [2, 3, 5, 7] by { NotPrimeByDivisor(9, 3); }
    assert PrimesUpTo(10) == [2, 3, 5, 7] by { NotPrimeByDivisor(10, 2); }
    assert PrimesUpTo(11) == [2, 3, 5, 7, 11] by { PrimeByTrialDivision(11, 5); }
    assert PrimesUpTo(12) == [2, 3, 5, 7, 11] by { NotPrimeByDivisor(12, 2); }
    assert PrimesUpTo(13) == [2, 3, 5, 7, 11, 13] by { PrimeByTrialDivision(13, 5); }
    assert PrimesUpTo(14) == [2, 3, 5, 7, 11, 13] by { NotPrimeByDivisor(14, 2); }
    assert PrimesUpTo(15) == [2, 3, 5, 7, 11, 13] by { NotPrimeByDivisor(15, 3); }
    assert PrimesUpTo(16) == [2, 3, 5, 7, 11, 13] by { NotPrimeByDivisor(16, 2); }
    assert PrimesUpTo(17) == [2, 3, 5, 7, 11, 13, 17] by { PrimeByTrialDivision(17, 5); }
    assert PrimesUpTo(18) == [2, 3, 5, 7, 11, 13, 17] by { NotPrimeByDivisor(18, 2); }
    assert PrimesUpTo(19) == [2, 3, 5, 7, 11, 13, 17, 19] by { PrimeByTrialDivision(19, 5); }
    assert PrimesUpTo(20) == [2, 3, 5, 7, 11, 13, 17, 19] by { NotPrimeByDivisor(20, 2); }
  }
}
