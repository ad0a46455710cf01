/** The generator behind the random suffix of src/atomic_file.rs: Marsaglia's shift-xor step on 64 bits. */
module Xorshift {

  function Mix(a: bv64, b: bv64): bv64 {
    a ^ b
  }

  function Left(s: bv64, k: bv7): bv64
    requires k < 64
  {
    s << k
  }

  function Right(s: bv64, k: bv7): bv64
    requires k < 64
  {
    s >> k
  }

  function ShiftLeft(s: bv64, k: bv7): bv64
    requires k < 64
  {
    Mix(s, Left(s, k))
  }

  function ShiftRight(s: bv64, k: bv7): bv64
    requires k < 64
  {
    Mix(s, Right(s, k))
  }

  function Advance(s: bv64): bv64 {
    ShiftLeft(ShiftRight(ShiftLeft(s, 13), 7), 17)
  }

  /** The state after `n` steps. */
  function StateAfter(seed: bv64, n: nat): bv64 {
    if n == 0 then seed else Advance(StateAfter(seed, n - 1))
  }

  // ----- A step can be undone -----

  lemma Mixes(a: bv64, b: bv64, c: bv64)
    ensures Mix(Mix(a, b), Mix(b, c)) == Mix(a, c)
  {
  }

  lemma NothingMixed(a: bv64)
    ensures Mix(a, 0) == a
  {
  }

  lemma LeftBy13(a: bv64, b: bv64)
    ensures Left(Mix(a, b), 13) == Mix(Left(a, 13), Left(b, 13))
  {
  }

  lemma LeftAgain13(s: bv64)
    ensures Left(Left(s, 13), 13) == Left(s, 26)
  {
  }

  lemma LeftBy26(a: bv64, b: bv64)
    ensures Left(Mix(a, b), 26) == Mix(Left(a, 26), Left(b, 26))
  {
  }

  lemma LeftAgain26(s: bv64)
    ensures Left(Left(s, 26), 26) == Left(s, 52)
  {
  }

  lemma LeftBy52(a: bv64, b: bv64)
    ensures Left(Mix(a, b), 52) == Mix(Left(a, 52), Left(b, 52))
  {
  }

  lemma LeftAgain52(s: bv64)
    ensures Left(Left(s, 52), 52) == 0
  {
  }

  lemma LeftBy17(a: bv64, b: bv64)
    ensures Left(Mix(a, b), 17) == Mix(Left(a, 17), Left(b, 17))
  {
  }

  lemma LeftAgain17(s: bv64)
    ensures Left(Left(s, 17), 17) == Left(s, 34)
  {
  }

  lemma LeftBy34(a: bv64, b: bv64)
    ensures Left(Mix(a, b), 34) == Mix(Left(a, 34), Left(b, 34))
  {
  }

  lemma LeftAgain34(s: bv64)
    ensures Left(Left(s, 34), 34) == 0
  {
  }

  lemma RightBy7(a: bv64, b: bv64)
    ensures Right(Mix(a, b), 7) == Mix(Right(a, 7), Right(b, 7))
  {
  }

  lemma RightAgain7(s: bv64)
    ensures Right(Right(s, 7), 7) == Right(s, 14)
  {
  }

  lemma RightBy14(a: bv64, b: bv64)
    ensures Right(Mix(a, b), 14) == Mix(Right(a, 14), Right(b, 14))
  {
  }

  lemma RightAgain14(s: bv64)
    ensures Right(Right(s, 14), 14) == Right(s, 28)
  {
  }

  lemma RightBy28(a: bv64, b: bv64)
    ensures Right(Mix(a, b), 28) == Mix(Right(a, 28), Right(b, 28))
  {
  }

  lemma RightAgain28(s: bv64)
    ensures Right(Right(s, 28), 28) == Right(s, 56)
  {
  }

  lemma RightBy56(a: bv64, b: bv64)
    ensures Right(Mix(a, b), 56) == Mix(Right(a, 56), Right(b, 56))
  {
  }

  lemma RightAgain56(s: bv64)
    ensures Right(Right(s, 56), 56) == 0
  {
  }

  lemma LeftTwice(s: bv64)
    ensures ShiftLeft(ShiftLeft(s, 13), 13) == ShiftLeft(s, 26) && ShiftLeft(ShiftLeft(s, 26), 26) == ShiftLeft(s, 52)
    ensures ShiftLeft(ShiftLeft(s, 52), 52) == s
    ensures ShiftLeft(ShiftLeft(s, 17), 17) == ShiftLeft(s, 34) && ShiftLeft(ShiftLeft(s, 34), 34) == s
  {
    hide Mix, Left;
    LeftBy13(s, Left(s, 13));
    LeftAgain13(s);
    Mixes(s, Left(s, 13), Left(s, 26));
    LeftBy26(s, Left(s, 26));
    LeftAgain26(s);
    Mixes(s, Left(s, 26), Left(s, 52));
    LeftBy52(s, Left(s, 52));
    LeftAgain52(s);
    Mixes(s, Left(s, 52), 0);
    LeftBy17(s, Left(s, 17));
    LeftAgain17(s);
    Mixes(s, Left(s, 17), Left(s, 34));
    LeftBy34(s, Left(s, 34));
    LeftAgain34(s);
    Mixes(s, Left(s, 34), 0);
    NothingMixed(s);
  }

  lemma RightTwice(s: bv64)
    ensures ShiftRight(ShiftRight(s, 7), 7) == ShiftRight(s, 14) && ShiftRight(ShiftRight(s, 14), 14) == ShiftRight(s, 28)
    ensures ShiftRight(ShiftRight(s, 28), 28) == ShiftRight(s, 56) && ShiftRight(ShiftRight(s, 56), 56) == s
  {
    hide Mix, Right;
    RightBy7(s, Right(s, 7));
    RightAgain7(s);
    Mixes(s, Right(s, 7), Right(s, 14));
    RightBy14(s, Right(s, 14));
    RightAgain14(s);
    Mixes(s, Right(s, 14), Right(s, 28));
    RightBy28(s, Right(s, 28));
    RightAgain28(s);
    Mixes(s, Right(s, 28), Right(s, 56));
    RightBy56(s, Right(s, 56));
    RightAgain56(s);
    Mixes(s, Right(s, 56), 0);
    NothingMixed(s);
  }

  /** A shift-xor applied again doubles its distance, until nothing is left of it. */
  function Retreat(s: bv64): bv64 {
    var a := ShiftLeft(ShiftLeft(s, 17), 34);
    var b := ShiftRight(ShiftRight(ShiftRight(ShiftRight(a, 7), 14), 28), 56);
    ShiftLeft(ShiftLeft(ShiftLeft(b, 13), 26), 52)
  }

  /** The step with the distances 13, 7 and 17 is undone by this one, so no two states have the same successor. */
  lemma RetreatUndoes(s: bv64)
    ensures Retreat(Advance(s)) == s
  {
    hide ShiftLeft, ShiftRight;
    LeftTwice(s);
    RightTwice(ShiftLeft(s, 13));
    LeftTwice(ShiftRight(ShiftLeft(s, 13), 7));
  }

  /** The state never falls into the fixed point zero. */
  lemma AdvanceNeverZero(s: bv64)
    ensures Advance(s) == 0 <==> s == 0
  {
    RetreatUndoes(s);
    RetreatUndoes(0);
    assert Advance(0) == 0;
    hide Advance, Retreat;
  }

  /** Two runs that start apart never meet. */
  lemma {:induction false} StatesDoNotMeet(a: bv64, b: bv64, n: nat)
    requires a != b
    ensures StateAfter(a, n) != StateAfter(b, n)
  {
    hide Advance, Retreat;
    if n > 0 {
      StatesDoNotMeet(a, b, n - 1);
      RetreatUndoes(StateAfter(a, n - 1));
      RetreatUndoes(StateAfter(b, n - 1));
    }
  }

  // ----- The seed -----

  function Clock(secs: bv64, nanos: bv64): bv64 {
    secs * 6_364_136_223_846_793_005 + nanos * 1_442_695_040_888_963_407
  }

  /** From the clock and the process id; never zero. */
  function Seed(secs: bv64, nanos: bv64, pid: bv64): (s: bv64)
    ensures s != 0
  {
    var mixed := Mix(Clock(secs, nanos), pid);
    if mixed == 0 then 0x9E37_79B9_7F4A_7C15 else mixed
  }

  lemma MixIsUndone(clock: bv64, pid: bv64)
    ensures Mix(Mix(clock, pid), pid) == clock
  {
  }

  lemma MixIsSymmetric(clock: bv64, pid: bv64)
    ensures Mix(clock, pid) == Mix(pid, clock)
  {
  }

  lemma MixVanishes(clock: bv64, pid: bv64)
    requires Mix(clock, pid) == 0
    ensures clock == pid
  {
  }

  /** The process id enters the seed: unless a mix vanishes, two processes at one time have different seeds. */
  lemma SeedTellsProcessesApart(secs: bv64, nanos: bv64, pid: bv64, other: bv64)
    requires Clock(secs, nanos) != pid && Clock(secs, nanos) != other
    ensures Mix(Seed(secs, nanos, pid), pid) == Clock(secs, nanos)
    ensures Seed(secs, nanos, pid) == Seed(secs, nanos, other) ==> pid == other
  {
    hide Clock, Mix;
    var clock := Clock(secs, nanos);
    if Mix(clock, pid) == 0 {
      MixVanishes(clock, pid);
    }
    if Mix(clock, other) == 0 {
      MixVanishes(clock, other);
    }
    MixIsUndone(clock, pid);
    MixIsSymmetric(clock, pid);
    MixIsSymmetric(clock, other);
    MixIsUndone(pid, clock);
    MixIsUndone(other, clock);
  }

  /** So do seconds and nanoseconds, each by its own constant. */
  lemma ClockCounts()
    ensures Clock(0, 0) == 0 && Clock(1, 0) == 6_364_136_223_846_793_005 && Clock(0, 1) == 1_442_695_040_888_963_407
    ensures Clock(1, 1) == 7_806_831_264_735_756_412
  {
  }
}
