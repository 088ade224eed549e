# pingpong: fixed-partner latency and bandwidth timing, modelled in Dafny

The program `pingpong.c` estimates the two parameters of the Hockney model
T(n) = Ts + n·β⁻¹ between pairs of MPI processes. It refuses to run with an odd
number of processes, pairs every rank with a fixed partner (odd ranks with the rank
below, even ranks with the rank above), and times a pingpong between the two:
the odd rank issues `n_tests` synchronous sends and then `n_tests` receives, the
even rank the same in the opposite order. The elapsed clock interval is divided by
`2·n_tests·msg_size`. A latency pass uses 10000 one-byte transfers, a bandwidth
pass 100 transfers of 64 MiB.

The model has three files:

- `pairing.dfy`: module `CInt` (C's 32-bit `int` as a newtype, and the `n & 1`
  parity test, proved equal to `n % 2` for every `int`, negative ones included) and
  module `Pairing` (the partner rule, its range, and the split of the ranks into
  blocks `{2k, 2k+1}`).
- `timing.dfy`: module `Timing`. `time_pingpong` is a method whose counted loops
  append `Ssend`/`Recv` events to a trace. It is proved equal to the specification
  function `Schedule`. A function `Rendezvous` gives the semantics of two ranks
  blocked in synchronous sends and blocking receives. Lemmas prove that partners'
  traces are dual and therefore run to completion, with the bytes moved in each
  direction.
- `pingpong.dfy`: module `Pingpong`. The constants, and `main` of one rank as the
  method `RunRank`. It either aborts on an odd count, or finishes with the partner,
  the two measurements (the values of the globals `Ts` and `beta_inv`) and the
  issued trace.

Clock reads (`MPI_Wtime`) are parameters. The floating-point quotient is kept
abstract: a `Measurement` holds the elapsed interval and the exact integer divisor.
C's `2.0*n_tests*msg_size` is computed in double precision. It equals that integer
whenever the product is at most 2^53, and `RunRank` proves this holds for both calls.

The comment at `pingpong.c:9` speaks of 10 bandwidth repetitions, but `BETA_TESTS`
is 100; the model follows the code.

## Model

| member | source | states |
|---|---|---|
| CInt.LowBitIsParity | pingpong.c:66 | C's `n & 1` on a two's-complement `int` equals `n` mod 2 for every `n`, so the tests `(size&1)` and `(rank&1)` are parity tests |
| Pairing.Partner | pingpong.c:74 | the partner is `rank-1` for an odd rank and `rank+1` for an even one: it never equals the rank, never overflows an `int`, lies in the same block `rank/2`, and has the opposite parity |
| Pairing.PartnerInvolution | pingpong.c:74 | the partner of a rank's partner is the rank itself |
| Pairing.PartnerInRange | pingpong.c:66-74 | with an even count every rank in [0, size) has its partner in [0, size); with an odd count the last rank's partner would be `size`, which is why the run is refused |
| Pairing.BlockShape | pingpong.c:74 | a rank and its partner form the block {2k, 2k+1} with k = rank/2 |
| Pairing.BlocksDisjoint | pingpong.c:74 | two ranks share a block exactly when they are equal or partners, and otherwise their blocks are disjoint |
| Pairing.BlocksCount | pingpong.c:66-74 | for an even count, the ranks of [0, size) form exactly size/2 blocks |
| Timing.Schedule | pingpong.c:36-53 | a rank's trace has 2·n events, all addressed to the peer with `msg_size` bytes; event i is a send exactly when (i < n) agrees with the rank being odd |
| Timing.TimePingpong | pingpong.c:30-56 | the loops issue exactly the events of `Schedule`, in order; the result's interval is end − start and its divisor is 2·n_tests·msg_size |
| Timing.Rendezvous | pingpong.c:38-52 | when two blocked ranks complete their traces against each other, both traces have the same length, and each direction moves what one side sends and the other receives |
| Timing.RendezvousIffDual | pingpong.c:38-52 | two traces run to completion exactly when they are position-wise dual; otherwise both ranks block at the first position where the events fail to meet |
| Timing.ScheduleDual | pingpong.c:36-53 | partners' traces are dual: event i of one is a send exactly when event i of the other is a receive of the same size from it |
| Timing.ScheduleBytes | pingpong.c:38-52 | each rank performs 2·n transfers, sending n·m bytes and receiving n·m bytes |
| Timing.ScheduleExchange | pingpong.c:36-55 | partners complete the exchange with 2·n transfers and n·m bytes in each direction, 2·n·m in all, the quantity the result is divided by |
| Timing.SameParityBlocks | pingpong.c:36-53 | two ranks of the same parity would both block in their first call, which is why partners must differ in parity |
| Timing.PassesExchange | pingpong.c:84-90 | two consecutive exchanges of the same partners complete together, and their byte counts add up in each direction |
| Pingpong.RunRank | pingpong.c:59-96 | an odd count aborts before any partner or transfer. Otherwise the partner is in range, and the trace is the latency pass (TS_TESTS one-byte transfers) followed by the bandwidth pass (BETA_TESTS transfers of MSG_SIZE). The two divisors are 2·TS_TESTS and 2·BETA_TESTS·MSG_SIZE: positive, exact as doubles, and the same on both partners |
| Pingpong.RunExchange | pingpong.c:84-90 | the full run of two partners completes, with TS_TESTS + BETA_TESTS·MSG_SIZE bytes in each direction |

## Left out

- The MPI runtime (`MPI_Init`, `MPI_Finalize`, `MPI_Comm_size`, `MPI_Comm_rank`, `MPI_Abort`): size and rank are parameters, and an abort is the `Aborted` outcome.
- `MPI_Barrier` before each timed exchange is not modelled; it synchronises all ranks and moves no data.
- `MPI_Wtime` readings are parameters, and the floating-point quotient `(end-start)/(2.0*n_tests*msg_size)` is not computed (floating point).
- The contents of the message buffer, and its `malloc`/`memset`/`free`: they do not affect the exchange.
- The `fprintf`/`printf` reports: output only.
- Rendezvous semantics: the model treats a receive of a different size from the matching send as a block. MPI would instead accept a shorter message or report truncation. Every trace of the program uses one size per exchange, so this case does not arise.
- The globals `Ts` and `beta_inv` are written once each. They are returned as fields of `RunOutcome` rather than held as mutable state.
- plot.py: argument checking and plotting with library calls.
