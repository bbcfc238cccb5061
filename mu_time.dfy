// mu_time: absolute times are unsigned 64-bit tick counts that wrap,
// relative times are signed 64-bit tick differences.

module MuTime {
  import opened Common

  type Abs = U64
  type Rel = I64

  /** MU_TIME_TICKS_PER_SECOND is CLOCKS_PER_SEC, which POSIX fixes at one million. */
  const TICKS_PER_SECOND: int := 1_000_000

  /** mu_time_offset: unsigned addition, wrapping modulo 2^64. */
  function Offset(t: Abs, dt: Rel): Abs
  {
    var sum := t + dt;
    if sum < 0 then sum + TWO64 else if sum >= TWO64 then sum - TWO64 else sum
  }

  /** Offset is addition modulo 2^64. */
  lemma OffsetIsModular(t: Abs, dt: Rel)
    ensures Offset(t, dt) == (t + dt) % TWO64
  {
  }

  /** mu_time_difference: unsigned subtraction reinterpreted as a signed tick count. */
  function Difference(t1: Abs, t2: Abs): Rel
  {
    ToI64(if t1 >= t2 then t1 - t2 else t1 - t2 + TWO64)
  }

  /** The difference agrees with t1 - t2 modulo 2^64 and is zero exactly for equal times. */
  lemma DifferenceIsModular(t1: Abs, t2: Abs)
    ensures (Difference(t1, t2) - (t1 - t2)) % TWO64 == 0
    ensures Difference(t1, t2) == 0 <==> t1 == t2
  {
  }

  predicate Precedes(t1: Abs, t2: Abs) { Difference(t1, t2) < 0 }
  predicate Equals(t1: Abs, t2: Abs) { t1 == t2 }
  predicate Follows(t1: Abs, t2: Abs) { Difference(t1, t2) > 0 }

  /** The difference of an offset time and its base is the offset. */
  lemma DifferenceOfOffset(t: Abs, dt: Rel)
    ensures Difference(Offset(t, dt), t) == dt
  {
    var o := Offset(t, dt);
    assert (o - t) % TWO64 == dt % TWO64;
  }

  /** Offsetting forward and back again returns to the start. */
  lemma OffsetInverse(t: Abs, dt: Rel)
    requires dt != -TWO63
    ensures Offset(Offset(t, dt), -dt) == t
  {
  }

  /** Adding the difference of two times to the second yields the first. */
  lemma OffsetByDifference(t1: Abs, t2: Abs)
    ensures Offset(t2, Difference(t1, t2)) == t1
  {
  }

  /** The difference is antisymmetric, except at the one value int64_t cannot negate. */
  lemma DifferenceAntisymmetric(t1: Abs, t2: Abs)
    requires Difference(t1, t2) != -TWO63
    ensures Difference(t2, t1) == -Difference(t1, t2)
  {
  }

  /** t1 precedes t2 exactly when t2 follows t1, unless the two are exactly half the range apart. */
  lemma PrecedesIffFollows(t1: Abs, t2: Abs)
    requires Difference(t1, t2) != -TWO63
    ensures Precedes(t1, t2) <==> Follows(t2, t1)
  {
    DifferenceAntisymmetric(t1, t2);
  }

  /** Two times exactly half the range apart each precede the other and neither follows. */
  lemma HalfRangeApart(t: Abs)
    ensures var u := Offset(t, -TWO63); Precedes(t, u) && Precedes(u, t) && !Follows(t, u) && !Follows(u, t)
  {
  }

  /** Exactly one of precedes, equals and follows holds for any pair of times. */
  lemma Trichotomy(t1: Abs, t2: Abs)
    ensures Precedes(t1, t2) || Equals(t1, t2) || Follows(t1, t2)
    ensures !(Precedes(t1, t2) && Equals(t1, t2))
    ensures !(Precedes(t1, t2) && Follows(t1, t2))
    ensures !(Equals(t1, t2) && Follows(t1, t2))
  {
  }

  /** A time strictly after t, by less than half the clock range, follows t even across the wrap. */
  lemma FollowsAcrossWrap(t: Abs, dt: Rel)
    requires 0 < dt
    ensures Follows(Offset(t, dt), t) && Precedes(t, Offset(t, dt))
  {
    DifferenceOfOffset(t, dt);
    DifferenceAntisymmetric(Offset(t, dt), t);
  }

  /** Times lying in one half-range window after a base compare as their unwrapped distances do. */
  predicate InWindow(base: Abs, t: Abs) { Difference(t, base) >= 0 }

  lemma DifferenceInWindow(base: Abs, t1: Abs, t2: Abs)
    requires InWindow(base, t1) && InWindow(base, t2)
    ensures Difference(t1, t2) == Difference(t1, base) - Difference(t2, base)
  {
    var d1 := Difference(t1, base);
    var d2 := Difference(t2, base);
    assert (t1 - base - d1) % TWO64 == 0;
    assert (t2 - base - d2) % TWO64 == 0;
    assert ((t1 - t2) - (d1 - d2)) % TWO64 == 0 by {
      assert (t1 - t2) - (d1 - d2) == (t1 - base - d1) - (t2 - base - d2);
    }
  }

  /** Within a window, follows is transitive. */
  lemma FollowsTransitiveInWindow(base: Abs, t1: Abs, t2: Abs, t3: Abs)
    requires InWindow(base, t1) && InWindow(base, t2) && InWindow(base, t3)
    requires Follows(t1, t2) && Follows(t2, t3)
    ensures Follows(t1, t3)
  {
    DifferenceInWindow(base, t1, t2);
    DifferenceInWindow(base, t2, t3);
    DifferenceInWindow(base, t1, t3);
  }

  /** Without a window, follows is not transitive: three times a third of the range apart form a cycle. */
  lemma FollowsNotTransitive()
    ensures Follows(0x5555_5555_5555_5556, 0) && Follows(0xAAAA_AAAA_AAAA_AAAC, 0x5555_5555_5555_5556)
    ensures Follows(0, 0xAAAA_AAAA_AAAA_AAAC)
  {
  }

  /** mu_time_rel_to_ms: int64_t arithmetic truncated toward zero, then narrowed to int. */
  function RelToMs(dt: Rel): (ms: I32)
    requires -TWO63 <= dt * 1000 < TWO63
    ensures -TWO31 <= CDiv(dt * 1000, TICKS_PER_SECOND) < TWO31 ==> ms == CDiv(dt * 1000, TICKS_PER_SECOND)
  {
    ToI32(CDiv(dt * 1000, TICKS_PER_SECOND))
  }

  /** mu_time_ms_to_rel: the int is widened to the tick type before multiplying, so nothing overflows. */
  function MsToRel(ms: I32): (dt: Rel)
    ensures dt == ms * (TICKS_PER_SECOND / 1000)
  {
    assert ms * TICKS_PER_SECOND == ms * 1000 * 1000;
    CDiv(ms * TICKS_PER_SECOND, 1000)
  }

  /** Converting milliseconds to ticks and back is exact for every int. */
  lemma MsRoundTrip(ms: I32)
    ensures -TWO63 <= MsToRel(ms) * 1000 < TWO63
    ensures RelToMs(MsToRel(ms)) == ms
  {
    var dt := MsToRel(ms);
    assert dt * 1000 == ms * 1000 * 1000;
    if ms >= 0 {
      assert (ms * 1000 * 1000) / 1000000 == ms;
    } else {
      var m: int := 0 - ms as int;
      assert (m * 1000 * 1000) / 1000000 == m;
    }
  }

  /** A positive tick count of less than a millisecond reads as zero milliseconds. */
  lemma SubMillisecondTruncates(dt: Rel)
    requires -1000 < dt < 1000
    ensures RelToMs(dt) == 0
  {
  }
}
