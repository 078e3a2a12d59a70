/** next_timer_ms (src/server.cpp:854-884) and the firing tests of process_timers. */
module PollTimeout {
  import opened Keys
  import opened Wire

  const I32: nat := 0x8000_0000
  const NO_TIMER: nat := 0xFFFF_FFFF_FFFF_FFFF

  /** The nearest of the first idle deadline and the first TTL deadline, as the code computes
      it: (uint64_t)-1 when there is neither. */
  function NextUs(idle: Option<nat>, ttl: Option<nat>): nat {
    var next_us := if idle.Some? then idle.value else NO_TIMER;
    if ttl.Some? && ttl.value < next_us then ttl.value else next_us
  }

  /** next_timer_ms, with its cast to uint32_t */
  function NextTimerMs(idle: Option<nat>, ttl: Option<nat>, now_us: nat): nat {
    var next_us := NextUs(idle, ttl);
    if next_us == NO_TIMER then 10000
    else if next_us <= now_us then 0
    else ((next_us - now_us) / 1000) % U32
  }

  /** The timeout as the int that poll gets; a negative one waits for events only. */
  function TimeoutMs(idle: Option<nat>, ttl: Option<nat>, now_us: nat): int {
    var ms := NextTimerMs(idle, ttl, now_us);
    if ms < I32 then ms else ms - U32
  }

  /** The test both loops of process_timers make at time `now_us`. */
  predicate Fires(deadline: nat, now_us: nat) {
    deadline < now_us + 1000
  }

  /** Milliseconds until the nearest timer. */
  function Wait(deadline: nat, now_us: nat): nat {
    if deadline <= now_us then 0 else (deadline - now_us) / 1000
  }

  /** The nearest deadline is the least of the two. "None" is what the code makes of no deadline,
      and also of the one it uses for "none". */
  lemma NextIsLeast(idle: Option<nat>, ttl: Option<nat>)
    ensures idle.Some? ==> NextUs(idle, ttl) <= idle.value
    ensures ttl.Some? ==> NextUs(idle, ttl) <= ttl.value
    ensures NextUs(idle, ttl) != NO_TIMER ==> Some(NextUs(idle, ttl)) in {idle, ttl}
    ensures NextUs(idle, ttl) >= NO_TIMER <==>
            (idle.None? || idle.value >= NO_TIMER) && (ttl.None? || ttl.value >= NO_TIMER)
  {
  }

  /** After sleeping the full timeout the nearest timer fires, if and only if it was less than
      2^31 milliseconds away: the extra 1000 microseconds make up for the division. */
  lemma SleepThenFire(idle: Option<nat>, ttl: Option<nat>, now_us: nat)
    requires NextUs(idle, ttl) != NO_TIMER
    ensures var next, t := NextUs(idle, ttl), TimeoutMs(idle, ttl, now_us);
            (t >= 0 && Fires(next, now_us + 1000 * t)) <==> Wait(next, now_us) < I32
  {
    var next := NextUs(idle, ttl);
    var w := Wait(next, now_us);
    if next > now_us {
      assert 1000 * w <= next - now_us < 1000 * w + 1000;
      if w >= U32 { assert w % U32 <= w - U32; }
    }
  }

  /** The sleep does not go past a deadline that is still to come, and there is none when one has
      passed. */
  predicate NotPast(now_us: nat, ms: int, deadline: nat) {
    ms >= 0 ==> now_us + 1000 * ms <= if deadline > now_us then deadline else now_us
  }

  /** The timeout is not too long for either timer, unless the clock is within ten seconds of the
      value that stands for "none"; without timers it is ten seconds. */
  lemma NotTooLong(idle: Option<nat>, ttl: Option<nat>, now_us: nat)
    ensures var t := TimeoutMs(idle, ttl, now_us);
            && (now_us + 10_000_000 <= NO_TIMER && idle.Some? ==> NotPast(now_us, t, idle.value))
            && (now_us + 10_000_000 <= NO_TIMER && ttl.Some? ==> NotPast(now_us, t, ttl.value))
            && (idle.None? && ttl.None? ==> t == 10_000)
  {
    var next := NextUs(idle, ttl);
    NextIsLeast(idle, ttl);
    if next != NO_TIMER && next > now_us {
      var w := (next - now_us) / 1000;
      assert 1000 * w <= next - now_us && w % U32 <= w;
    }
  }

  /** After sleeping it also fires at any later time. */
  lemma LateStillFires(deadline: nat, now_us: nat, later: nat)
    requires Fires(deadline, now_us) && now_us <= later
    ensures Fires(deadline, later)
  {
  }

  /** A TTL of 2^31 milliseconds, the only timer there is: poll is asked to wait forever. */
  lemma LongTtlNeverTimesOut()
    ensures TimeoutMs(None, Some(I32 * 1000), 0) < 0
  {
    assert (I32 * 1000) / 1000 == I32;
  }
}
