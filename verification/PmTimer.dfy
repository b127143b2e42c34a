/** The ACPI PM-timer delay (`pmt_delay`, kern/sys/acpi/acpi.c): busy-waiting on a counter that
    wraps (ACPI Specification 6.x, section 4.8.3.3). */
module PmTimer {
  import opened Bits

  const RATE := 3579545
  const MICRO := 1000000

  /** Ticks to wait for, with the multiplication in 64 bits. */
  function Target(us: Word): nat {
    us * RATE % U64 / MICRO
  }

  /** The multiplication loses nothing exactly when it fits in 64 bits. */
  lemma TargetExactIff(us: Word)
    ensures Target(us) == us * RATE / MICRO <==> us * RATE < U64
  {
    var p := us * RATE;
    if p >= U64 {
      assert p % U64 <= p - U64;
    }
  }

  /** A counter of 24 or 32 bits, read at true tick `ticks`. */
  function Counter(ticks: nat, modulus: nat): Word32
    requires modulus == U24 || modulus == U32
  {
    ticks % modulus
  }

  /** `(reading - count) & 0xffffff`, in 64-bit arithmetic. */
  function Difference(reading: Word32, count: Word32): nat {
    And((reading + U64 - count) % U64, 0xff_ffff)
  }

  /** Whatever the counter's width, the difference is the elapsed time modulo 2^24. */
  lemma DifferenceIsElapsed(start: nat, now: nat, modulus: nat)
    requires start <= now && (modulus == U24 || modulus == U32)
    ensures Difference(Counter(now, modulus), Counter(start, modulus)) == (now - start) % U24
  {
    hide And;
    var a: nat, b: nat := Counter(now, modulus), Counter(start, modulus);
    var x := a + U64 - b;
    assert Difference(a, b) == x % U64 % U24 by {
      Powers();
      AndLowMask(x % U64, 24);
    }
    WrapModulo(x);
    assert (x + b) % U24 == a % U24 by {
      assert x + b == a + U64;
      PlusU64(a);
    }
    Congruent(now, modulus);
    Congruent(start, modulus);
    assert now - start + start == now;
    SubtractModulo(x, now - start, b, start);
  }

  lemma PlusU64(a: nat)
    ensures (a + U64) % U24 == a % U24
  {
  }

  lemma Congruent(x: nat, modulus: nat)
    requires modulus == U24 || modulus == U32
    ensures x % modulus % U24 == x % U24
  {
    if modulus == U32 {
      var q := x / U32;
      assert x == U24 * (0x100 * q) + x % U32;
    }
  }

  lemma AddModulo(x: nat, b: nat)
    ensures (x + b) % U24 == (x % U24 + b % U24) % U24
  {
    var q, p := x / U24, b / U24;
    assert x + b == U24 * (q + p) + (x % U24 + b % U24);
  }

  /** Adding congruent amounts to both sides cancels. */
  lemma SubtractModulo(x: nat, y: nat, b: nat, c: nat)
    requires (x + b) % U24 == (y + c) % U24 && b % U24 == c % U24
    ensures x % U24 == y % U24
  {
    AddModulo(x, b);
    AddModulo(y, c);
  }

  lemma WrapModulo(x: nat)
    ensures x % U64 % U24 == x % U24
  {
    var q := x / U64;
    assert x == U24 * (0x100_0000_0000 * q) + x % U64;
  }

  /** Leaving the loop means enough time has truly passed, at any start and after any number of
      wraps. */
  lemma ExitMeansElapsed(start: nat, now: nat, modulus: nat, target: nat)
    requires start <= now && (modulus == U24 || modulus == U32)
    requires Difference(Counter(now, modulus), Counter(start, modulus)) >= target
    ensures now - start >= target
  {
    DifferenceIsElapsed(start, now, modulus);
  }

  /** The loop can end at some time exactly when the target fits the 24-bit difference. */
  lemma CanEndIff(start: nat, modulus: nat, target: nat)
    requires modulus == U24 || modulus == U32
    ensures (exists now: nat :: now >= start && Difference(Counter(now, modulus), Counter(start, modulus)) >= target)
            <==> target < U24
  {
    if target < U24 {
      DifferenceIsElapsed(start, start + target, modulus);
    }
    if now: nat :| now >= start && Difference(Counter(now, modulus), Counter(start, modulus)) >= target {
      DifferenceIsElapsed(start, now, modulus);
    }
  }

  /** A delay can end and is not cut short by the 64-bit product exactly up to 4686968
      microseconds. Beyond that either the target is out of the counter's reach or it wrapped. */
  lemma LongestDelay(us: Word)
    ensures us * RATE < U64 && Target(us) < U24 <==> us <= 4686968
  {
  }

  /** A delay of almost 60 days whose product wraps to a target of two ticks: it does end, at once. */
  lemma WrappedDelay(start: nat, modulus: nat)
    requires modulus == U24 || modulus == U32
    ensures Target(5153376776577) == 2 && 5153376776577 * RATE / MICRO > U24
    ensures exists now: nat ::
              now >= start && Difference(Counter(now, modulus), Counter(start, modulus)) >= Target(5153376776577)
  {
    CanEndIff(start, modulus, 2);
  }

  /** Poll `k` comes at most `g` ticks after the one before. */
  predicate Gap(clock: nat -> nat, k: nat, g: nat) {
    k > 0 ==> clock(k - 1) <= clock(k) <= clock(k - 1) + g
  }

  /** The true time of the polls: never going back, at most `g` ticks apart, and reaching `until`. */
  ghost predicate Runs(clock: nat -> nat, g: nat, until: nat) {
    && (forall k: nat :: Gap(clock, k, g))
    && (exists k: nat :: clock(k) >= until)
  }

  /** The delay. `clock(k)` is the true time of the `k`-th read of the counter, the first of which
      sets the start. With polls at most `g` ticks apart and the target at least `g` below the wrap,
      it returns at the first poll at which the time has passed, and within `g` ticks of it. */
  method PmtDelay(timerLength: nat, us: Word, clock: nat -> nat, modulus: nat, ghost g: nat)
    returns (halted: bool, polls: nat)
    requires modulus == U24 || modulus == U32
    requires Runs(clock, g, clock(0) + Target(us)) && Target(us) + g <= U24
    ensures halted <==> timerLength != 4
    ensures !halted ==> clock(0) + Target(us) <= clock(polls)
    ensures !halted && Target(us) > 0 ==> clock(polls) < clock(0) + Target(us) + g
    ensures !halted ==> forall j :: 0 <= j < polls ==> clock(j) < clock(0) + Target(us)
  {
    hide Counter, Difference, Target, Gap;
    polls := 0;
    if timerLength != 4 {
      return true, 0;
    }
    halted := false;
    var count := Counter(clock(0), modulus);
    var target := Target(us);
    var current := 0;
    ghost var last: nat :| clock(last) >= clock(0) + target;
    while current < target
      invariant clock(0) <= clock(polls) && polls <= last
      invariant if polls == 0 then current == 0 else clock(polls) < clock(0) + target + g
      invariant current == clock(polls) - clock(0)
      invariant forall j :: 0 <= j < polls ==> clock(j) < clock(0) + target
      decreases last - polls
    {
      assert polls != last;
      polls := polls + 1;
      PollGap(clock, polls, g);
      DifferenceIsElapsed(clock(0), clock(polls), modulus);
      current := Difference(Counter(clock(polls), modulus), count);
    }
  }

  lemma PollGap(clock: nat -> nat, k: nat, g: nat)
    requires k > 0 && forall j: nat :: Gap(clock, j, g)
    ensures clock(k - 1) <= clock(k) <= clock(k - 1) + g
  {
    assert Gap(clock, k, g);
  }
}
