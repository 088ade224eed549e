/** `main` of pingpong.c: the even-count check, the partner, and the latency and bandwidth
    passes with their constants. */
module Pingpong {
  import opened CInt
  import opened Pairing
  import opened Timing

  /** Repetitions of the latency pass (1-byte transfers). */
  const TS_TESTS: int32 := 10000
  /** Repetitions of the bandwidth pass. */
  const BETA_TESTS: int32 := 100
  /** Bytes per transfer of the bandwidth pass, 64 MiB; the newtype shows it fits a C `int`. */
  const MSG_SIZE: int32 := 1024 * 1024 * 64

  /** Largest magnitude up to which every integer is exactly representable as a double. */
  const EXACT_DOUBLE: int := 0x20_0000_0000_0000

  /** The four `MPI_Wtime` readings of one run, in the order they are taken: start and end of
      the latency pass, then of the bandwidth pass. */
  datatype Clock = Clock(t0: real, t1: real, t2: real, t3: real)

  /** How one rank's run ends: aborted on an odd process count, or finished with its partner,
      the values assigned to the globals `Ts` and `beta_inv`, and every transfer it issued. */
  datatype RunOutcome =
    | Aborted
    | Finished(peer: int32, ts: Measurement, betaInv: Measurement, trace: seq<Event>)

  /** One rank's `main`, from the size and rank MPI reports (0 <= rank < size). An odd count
      aborts before a partner is computed or any transfer is issued; otherwise the partner is in
      range, the rank runs the latency pass and then the bandwidth pass against it, and both
      divisors are positive, exact in double precision, and independent of the rank, so the two
      partners divide by the same quantity. */
  method RunRank(size: int32, rank: int32, clock: Clock) returns (o: RunOutcome)
    requires 0 <= rank < size
    ensures o.Aborted? <==> IsOdd(size)
    ensures o.Finished? ==> o.peer == Partner(rank) && 0 <= o.peer < size
    ensures o.Finished? ==>
              o.trace == Schedule(rank, o.peer, TS_TESTS, 1) + Schedule(rank, o.peer, BETA_TESTS, MSG_SIZE)
    ensures o.Finished? ==>
              o.ts.elapsed == clock.t1 - clock.t0 && o.betaInv.elapsed == clock.t3 - clock.t2
    ensures o.Finished? ==>
              o.ts.divisor == 2 * TS_TESTS as int && o.betaInv.divisor == 2 * BETA_TESTS as int * MSG_SIZE as int
    ensures o.Finished? ==> 0 < o.ts.divisor <= EXACT_DOUBLE && 0 < o.betaInv.divisor <= EXACT_DOUBLE
  {
    if IsOdd(size) {
      return Aborted;
    }
    var peer := Partner(rank);
    PartnerInRange(size, rank);
    var latency, ts := TimePingpong(rank, peer, TS_TESTS, 1, clock.t0, clock.t1);
    var bandwidth, betaInv := TimePingpong(rank, peer, BETA_TESTS, MSG_SIZE, clock.t2, clock.t3);
    o := Finished(peer, ts, betaInv, latency + bandwidth);
  }

  /** The whole run of two partners: the latency pass completes with 2·TS_TESTS one-byte
      transfers, then the bandwidth pass with 2·BETA_TESTS transfers of MSG_SIZE bytes, and the
      same number of bytes moves in each direction. */
  lemma RunExchange(rank: int32)
    ensures
      var p := Partner(rank);
      var total := TS_TESTS as int + BETA_TESTS as int * MSG_SIZE as int;
      Rendezvous(rank, Schedule(rank, p, TS_TESTS, 1) + Schedule(rank, p, BETA_TESTS, MSG_SIZE),
                 p, Schedule(p, rank, TS_TESTS, 1) + Schedule(p, rank, BETA_TESTS, MSG_SIZE))
        == Completed(total, total, 2 * TS_TESTS as int + 2 * BETA_TESTS as int)
  {
    PassesExchange(rank, TS_TESTS, 1, BETA_TESTS, MSG_SIZE);
  }
}
