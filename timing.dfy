/** The timed exchange of `time_pingpong`: the sequence of blocking transfers each rank
    issues, the rendezvous of two such sequences, and the divisor of the result. */
module Timing {
  import opened CInt
  import opened Pairing

  /** One blocking MPI call of the exchange: a synchronous send (`MPI_Ssend`) or a blocking
      receive (`MPI_Recv`) of `bytes` characters to or from rank `peer`. */
  datatype Event = Ssend(peer: int32, bytes: int32) | Recv(peer: int32, bytes: int32)

  /** What `time_pingpong` computes its result from: the clock interval between the two
      `MPI_Wtime` reads and the divisor `2.0 * n_tests * msg_size`. The floating-point quotient
      itself is not modelled. */
  datatype Measurement = Measurement(elapsed: real, divisor: int)

  /** The number of iterations of `for (int i = 0; i < n; i++)`. */
  function Reps(n: int32): nat
  {
    if n <= 0 then 0 else n as int
  }

  /** The events of one such loop issuing `e` each time round. */
  function Repeat(e: Event, n: int): (s: seq<Event>)
    ensures |s| == if n <= 0 then 0 else n
    ensures forall i :: 0 <= i < |s| ==> s[i] == e
  {
    if n <= 0 then [] else [e] + Repeat(e, n - 1)
  }

  /** The trace of `time_pingpong(rank, peer, n, m)`: an odd rank sends first and then
      receives, an even rank receives first and then sends, `n` times each. */
  function Schedule(rank: int32, peer: int32, n: int32, m: int32): (s: seq<Event>)
    ensures |s| == 2 * Reps(n)
    ensures forall i :: 0 <= i < |s| ==> s[i].peer == peer && s[i].bytes == m
    ensures forall i :: 0 <= i < |s| ==> (s[i].Ssend? <==> (i < Reps(n) <==> IsOdd(rank)))
  {
    var k := Reps(n);
    if IsOdd(rank) then Repeat(Ssend(peer, m), k) + Repeat(Recv(peer, m), k)
    else Repeat(Recv(peer, m), k) + Repeat(Ssend(peer, m), k)
  }

  /** `time_pingpong`: after the barrier and the first clock read (`start`), the counted loops
      issue the transfers one at a time; the second clock read is `end`. The barrier is not
      modelled. */
  method TimePingpong(rank: int32, peer: int32, nTests: int32, msgSize: int32, start: real, end: real)
    returns (trace: seq<Event>, result: Measurement)
    ensures trace == Schedule(rank, peer, nTests, msgSize)
    ensures result.elapsed == end - start
    ensures result.divisor == 2 * (nTests as int) * (msgSize as int)
  {
    var first, second;
    if IsOdd(rank) {
      first, second := Ssend(peer, msgSize), Recv(peer, msgSize);
    } else {
      first, second := Recv(peer, msgSize), Ssend(peer, msgSize);
    }
    trace := [];
    var i: int32 := 0;
    while i < nTests
      invariant 0 <= i as int <= Reps(nTests)
      invariant trace == Repeat(first, i as int)
    {
      trace := trace + [first];
      i := i + 1;
    }
    assert trace == Repeat(first, Reps(nTests));
    i := 0;
    while i < nTests
      invariant 0 <= i as int <= Reps(nTests)
      invariant trace == Repeat(first, Reps(nTests)) + Repeat(second, i as int)
    {
      trace := trace + [second];
      i := i + 1;
    }
    result := Measurement(end - start, 2 * (nTests as int) * (msgSize as int));
  }

  /** Whether the next call of rank `a` (`e`) and the next call of rank `b` (`f`) complete each
      other: one is a synchronous send addressed to the other rank, the other a receive from
      the first rank of the same size. */
  predicate Meets(a: int32, e: Event, b: int32, f: Event)
  {
    e.peer == b && f.peer == a && e.bytes == f.bytes && e.Ssend? != f.Ssend?
  }

  /** The outcome of two ranks running their traces against each other: every transfer
      completed, with the bytes moved each way, or both blocked for ever at `step`. */
  datatype Exchange = Completed(aToB: int, bToA: int, transfers: nat) | Stuck(step: nat)

  /** Bytes a trace sends. */
  function SentBytes(t: seq<Event>): int
  {
    if t == [] then 0 else (if t[0].Ssend? then t[0].bytes as int else 0) + SentBytes(t[1..])
  }

  /** Bytes a trace receives. */
  function ReceivedBytes(t: seq<Event>): int
  {
    if t == [] then 0 else (if t[0].Recv? then t[0].bytes as int else 0) + ReceivedBytes(t[1..])
  }

  /** Two ranks, each blocked in its next call. A synchronous send returns only once the peer
      has posted the matching receive, and a receive only once the peer sends, so both calls
      return together when they meet; otherwise (two sends, two receives, a wrong peer or size,
      or one side finished while the other still waits) neither ever returns. */
  function Rendezvous(a: int32, ta: seq<Event>, b: int32, tb: seq<Event>): (r: Exchange)
    ensures r.Completed? ==> |ta| == |tb| == r.transfers
    ensures r.Completed? ==> r.aToB == SentBytes(ta) == ReceivedBytes(tb)
    ensures r.Completed? ==> r.bToA == SentBytes(tb) == ReceivedBytes(ta)
    ensures r.Stuck? ==> r.step <= |ta| && r.step <= |tb|
    decreases |ta|
  {
    if ta == [] || tb == [] then
      if ta == [] && tb == [] then Completed(0, 0, 0) else Stuck(0)
    else if !Meets(a, ta[0], b, tb[0]) then Stuck(0)
    else
      var moved := ta[0].bytes as int;
      match Rendezvous(a, ta[1..], b, tb[1..])
      case Completed(x, y, k) =>
        if ta[0].Ssend? then Completed(x + moved, y, k + 1) else Completed(x, y + moved, k + 1)
      case Stuck(s) => Stuck(s + 1)
  }

  /** Position-wise duality: event i of one trace is a send exactly when event i of the other
      is the matching receive. */
  predicate Dual(a: int32, ta: seq<Event>, b: int32, tb: seq<Event>)
  {
    |ta| == |tb| && forall i :: 0 <= i < |ta| ==> Meets(a, ta[i], b, tb[i])
  }

  /** The exchange runs to completion exactly when the traces are dual; when it does not, it
      blocks at the first position where they fail to meet. */
  lemma {:induction false} RendezvousIffDual(a: int32, ta: seq<Event>, b: int32, tb: seq<Event>)
    ensures Rendezvous(a, ta, b, tb).Completed? <==> Dual(a, ta, b, tb)
    ensures Rendezvous(a, ta, b, tb).Stuck? ==>
              var s := Rendezvous(a, ta, b, tb).step;
              (forall i :: 0 <= i < s ==> Meets(a, ta[i], b, tb[i])) &&
              (s < |ta| && s < |tb| ==> !Meets(a, ta[s], b, tb[s]))
    decreases |ta|
  {
    if ta != [] && tb != [] && Meets(a, ta[0], b, tb[0]) {
      RendezvousIffDual(a, ta[1..], b, tb[1..]);
      if Dual(a, ta[1..], b, tb[1..]) {
        assert Dual(a, ta, b, tb) by {
          forall i | 0 <= i < |ta| ensures Meets(a, ta[i], b, tb[i]) {
            if i > 0 { assert ta[i] == ta[1..][i - 1] && tb[i] == tb[1..][i - 1]; }
          }
        }
      } else {
        assert !Dual(a, ta, b, tb) by {
          if Dual(a, ta, b, tb) {
            forall i | 0 <= i < |ta| - 1 ensures Meets(a, ta[1..][i], b, tb[1..][i]) {
              assert ta[1..][i] == ta[i + 1] && tb[1..][i] == tb[i + 1];
            }
          }
        }
        var s := Rendezvous(a, ta[1..], b, tb[1..]).step;
        forall i | 0 <= i < s + 1 ensures Meets(a, ta[i], b, tb[i]) {
          if i > 0 { assert ta[i] == ta[1..][i - 1] && tb[i] == tb[1..][i - 1]; }
        }
      }
    }
  }

  /** Partners' traces are dual: each synchronous send of one meets a posted receive of the
      other, in order, of the same size. */
  lemma ScheduleDual(rank: int32, n: int32, m: int32)
    ensures Dual(rank, Schedule(rank, Partner(rank), n, m), Partner(rank), Schedule(Partner(rank), rank, n, m))
  {
  }

  /** Bytes sent and received over the concatenation of two traces. */
  lemma {:induction false} BytesAppend(t: seq<Event>, u: seq<Event>)
    ensures SentBytes(t + u) == SentBytes(t) + SentBytes(u)
    ensures ReceivedBytes(t + u) == ReceivedBytes(t) + ReceivedBytes(u)
    decreases |t|
  {
    if t == [] {
      assert t + u == u;
    } else {
      assert (t + u)[1..] == t[1..] + u;
      BytesAppend(t[1..], u);
    }
  }

  /** A loop of `n` sends (or receives) of `m` bytes moves `n * m` bytes that way. */
  lemma {:induction false} RepeatBytes(e: Event, n: nat)
    ensures SentBytes(Repeat(e, n)) == if e.Ssend? then n * e.bytes as int else 0
    ensures ReceivedBytes(Repeat(e, n)) == if e.Recv? then n * e.bytes as int else 0
  {
    if n > 0 {
      RepeatBytes(e, n - 1);
      assert Repeat(e, n)[1..] == Repeat(e, n - 1);
    }
  }

  /** Each rank issues 2·n transfers and sends and receives n·m bytes. */
  lemma ScheduleBytes(rank: int32, peer: int32, n: int32, m: int32)
    ensures |Schedule(rank, peer, n, m)| == 2 * Reps(n)
    ensures SentBytes(Schedule(rank, peer, n, m)) == Reps(n) * m as int
    ensures ReceivedBytes(Schedule(rank, peer, n, m)) == Reps(n) * m as int
  {
    var k := Reps(n);
    var s, r := Repeat(Ssend(peer, m), k), Repeat(Recv(peer, m), k);
    RepeatBytes(Ssend(peer, m), k);
    RepeatBytes(Recv(peer, m), k);
    if IsOdd(rank) { BytesAppend(s, r); } else { BytesAppend(r, s); }
  }

  /** Run against each other, partners complete the exchange: 2·n transfers moving n·m bytes in
      each direction, 2·n·m in all. */
  lemma ScheduleExchange(rank: int32, n: int32, m: int32)
    ensures Rendezvous(rank, Schedule(rank, Partner(rank), n, m), Partner(rank), Schedule(Partner(rank), rank, n, m))
              == Completed(Reps(n) * m as int, Reps(n) * m as int, 2 * Reps(n))
  {
    var p := Partner(rank);
    ScheduleDual(rank, n, m);
    RendezvousIffDual(rank, Schedule(rank, p, n, m), p, Schedule(p, rank, n, m));
    ScheduleBytes(rank, p, n, m);
    ScheduleBytes(p, rank, n, m);
  }

  /** Two ranks of the same parity both start with a send (or both with a receive), so with at
      least one repetition neither first call ever returns: this is why partners differ in
      parity. */
  lemma SameParityBlocks(a: int32, b: int32, n: int32, m: int32)
    requires IsOdd(a) == IsOdd(b) && n > 0
    ensures Rendezvous(a, Schedule(a, b, n, m), b, Schedule(b, a, n, m)) == Stuck(0)
  {
  }

  /** Dual traces stay dual when each is followed by a dual continuation. */
  lemma DualAppend(a: int32, ta: seq<Event>, ua: seq<Event>, b: int32, tb: seq<Event>, ub: seq<Event>)
    requires Dual(a, ta, b, tb) && Dual(a, ua, b, ub)
    ensures Dual(a, ta + ua, b, tb + ub)
  {
  }

  /** Two consecutive exchanges of the same partners, as `main` runs them, complete together,
      and the bytes of both add up in each direction. */
  lemma {:induction false} PassesExchange(rank: int32, n1: int32, m1: int32, n2: int32, m2: int32)
    ensures
      var p := Partner(rank);
      Rendezvous(rank, Schedule(rank, p, n1, m1) + Schedule(rank, p, n2, m2),
                 p, Schedule(p, rank, n1, m1) + Schedule(p, rank, n2, m2))
        == Completed(Reps(n1) * m1 as int + Reps(n2) * m2 as int,
                     Reps(n1) * m1 as int + Reps(n2) * m2 as int,
                     2 * Reps(n1) + 2 * Reps(n2))
  {
    var p := Partner(rank);
    var ta1, ta2 := Schedule(rank, p, n1, m1), Schedule(rank, p, n2, m2);
    var tb1, tb2 := Schedule(p, rank, n1, m1), Schedule(p, rank, n2, m2);
    ScheduleDual(rank, n1, m1);
    ScheduleDual(rank, n2, m2);
    DualAppend(rank, ta1, ta2, p, tb1, tb2);
    RendezvousIffDual(rank, ta1 + ta2, p, tb1 + tb2);
    BytesAppend(ta1, ta2);
    BytesAppend(tb1, tb2);
    ScheduleBytes(rank, p, n1, m1);
    ScheduleBytes(rank, p, n2, m2);
    ScheduleBytes(p, rank, n1, m1);
    ScheduleBytes(p, rank, n2, m2);
  }
}
