/** `PaddedValue<T>`: one value guarded by a `busy_flag`, taken by a spin
    with exponential back-off. A back-off round that sees the flag set at all
    eight of its loads gives up and lets the caller in anyway; a round whose
    exchange loses to another process starts over with a fresh back-off, and
    nothing bounds how often that happens (`PeersCanStallLock`).

    The other processes that share the flag are not modelled as threads.
    Their effect is an oracle `peer`: before each atomic access to the flag
    (a relaxed load or the acquiring exchange) the peer stores `peer[k]` into
    it; once the oracle is used up, nobody else touches the flag. Time is
    counted in `pause` instructions. */
module SpinLock {

  /** Back-off delays the source's `uint8_t delay` takes: 1, 2, 4, ..., 128. */
  predicate IsSpinDelay(d: int)
  {
    d == 1 || d == 2 || d == 4 || d == 8 || d == 16 || d == 32 || d == 64 || d == 128
  }

  /** The `delay <<= 1` of a back-off round never wraps the 8-bit counter:
      it is only reached below 128, where doubling stays a back-off delay. */
  lemma DelayNeverWraps(d: int)
    requires IsSpinDelay(d) && d != 128
    ensures (d * 2) % 256 == d * 2 && IsSpinDelay(d * 2)
  {
  }

  /** What one atomic access sees: the peer's store if there is one left,
      otherwise the flag as it stands. */
  function Observe(flag: bool, peer: seq<bool>): (bool, seq<bool>)
  {
    if peer == [] then (flag, []) else (peer[0], peer[1..])
  }

  /** How the inner spin of one round of `lock()` ends. */
  datatype SpinEnd =
    | SawClear(rest: seq<bool>, pauses: nat)  // a load saw the flag clear: go and exchange
    | GaveUp(rest: seq<bool>, pauses: nat)    // the 128-pause round ended with the flag still set

  /** The inner `while (busy_flag.load(...))` loop, entered with the flag at
      `flag`, the back-off at `delay`, and `peer` still to come. A round that
      gives up has paused `delay + 2*delay + ... + 128` times. */
  function Spin(flag: bool, peer: seq<bool>, delay: int): (r: SpinEnd)
    requires IsSpinDelay(delay)
    ensures |r.rest| <= |peer|
    ensures r.GaveUp? ==> r.pauses == 256 - delay
    decreases 256 - delay
  {
    var (seen, rest) := Observe(flag, peer);
    if !seen then SawClear(rest, 0)
    else if delay == 128 then GaveUp(rest, delay)
    else
      var r := Spin(true, rest, delay * 2);
      match r
      case SawClear(rest', p) => SawClear(rest', delay + p)
      case GaveUp(rest', p) => GaveUp(rest', delay + p)
  }

  /** One step of `Spin`: the load, then either the end of the round or the
      next, doubled, delay. */
  lemma SpinUnfold(flag: bool, peer: seq<bool>, delay: int)
    requires IsSpinDelay(delay)
    ensures var (seen, rest) := Observe(flag, peer);
      var r := Spin(flag, peer, delay);
      && (!seen ==> r == SawClear(rest, 0))
      && (seen && delay == 128 ==> r == GaveUp(rest, 128))
      && (seen && delay != 128 ==>
            var r' := Spin(true, rest, delay * 2);
            r.SawClear? == r'.SawClear? && r.rest == r'.rest && r.pauses == delay + r'.pauses)
  {
  }

  /** The result of a whole `lock()` call: whether the exchange took the flag,
      the pauses, how many back-off rounds the outer loop started, and the
      peer stores still to come. */
  datatype LockRun = LockRun(acquired: bool, pauses: nat, rounds: nat, rest: seq<bool>)

  /** `lock()`: spin until the flag reads clear, then exchange it to set; if the
      exchange finds it set again (a peer got in between), start over with a
      fresh back-off. A spin that gives up ends the call with `false`. */
  function LockSpec(flag: bool, peer: seq<bool>): (r: LockRun)
    ensures |r.rest| <= |peer|
    ensures 1 <= r.rounds
    decreases |peer|
  {
    match Spin(flag, peer, 1)
    case GaveUp(rest, p) => LockRun(false, p, 1, rest)
    case SawClear(rest, p) =>
      var (seen, rest') := Observe(false, rest);
      if !seen then LockRun(true, p, 1, rest')
      else
        var r := LockSpec(true, rest');
        LockRun(r.acquired, p + r.pauses, r.rounds + 1, r.rest)
  }

  /** One round of `LockSpec`: the spin, then either the end of the call or
      the exchange and, if it found the flag set, the rest of the call. */
  lemma LockUnfold(flag: bool, peer: seq<bool>)
    ensures var s := Spin(flag, peer, 1);
      var r := LockSpec(flag, peer);
      var (seen, rest') := Observe(false, s.rest);
      && (s.GaveUp? ==> r == LockRun(false, s.pauses, 1, s.rest))
      && (s.SawClear? && !seen ==> r == LockRun(true, s.pauses, 1, rest'))
      && (s.SawClear? && seen ==>
            r.acquired == LockSpec(true, rest').acquired && r.pauses == s.pauses + LockSpec(true, rest').pauses)
  {
  }

  /** Every element of `peer` stores a set flag. */
  predicate AllSet(peer: seq<bool>)
  {
    forall k :: 0 <= k < |peer| ==> peer[k]
  }

  /** A spin that sees the flag set at every load gives up at the end of its
      round, after `256 - delay` pauses. */
  lemma {:induction false} SpinGivesUpWhenAlwaysSet(flag: bool, peer: seq<bool>, delay: int)
    requires IsSpinDelay(delay)
    requires AllSet(peer) && (flag || peer != [])
    ensures Spin(flag, peer, delay).GaveUp?
    ensures Spin(flag, peer, delay).pauses == 256 - delay
    decreases 256 - delay
  {
    var (seen, rest) := Observe(flag, peer);
    assert seen;
    if delay != 128 {
      assert AllSet(rest);
      SpinGivesUpWhenAlwaysSet(true, rest, delay * 2);
    }
  }

  /** If the flag is observed set on every poll, `lock()` returns `false` after
      one full back-off round: eight loads and 1 + 2 + ... + 128 = 255 pauses. */
  lemma LockForcedWhenAlwaysSet(flag: bool, peer: seq<bool>)
    requires AllSet(peer) && (flag || peer != [])
    ensures !LockSpec(flag, peer).acquired
    ensures LockSpec(flag, peer).pauses == 255
  {
    SpinGivesUpWhenAlwaysSet(flag, peer, 1);
  }

  /** On a clear flag nobody else touches, `lock()` takes it at once. */
  lemma LockUncontended()
    ensures LockSpec(false, []) == LockRun(true, 0, 1, [])
  {
  }

  /** A `lock()` that gives up has spun through at least one whole round. */
  lemma {:induction false} ForcedLockPausesAtLeastOneRound(flag: bool, peer: seq<bool>)
    requires !LockSpec(flag, peer).acquired
    ensures LockSpec(flag, peer).pauses >= 255
    decreases |peer|
  {
    match Spin(flag, peer, 1)
    case GaveUp(rest, p) =>
    case SawClear(rest, p) =>
      var (seen, rest') := Observe(false, rest);
      assert seen;
      ForcedLockPausesAtLeastOneRound(true, rest');
  }

  /** Peer stores that clear the flag before each load and set it again before
      each exchange, `n` times over. */
  function Interfering(n: nat): (r: seq<bool>)
    ensures |r| == 2 * n
  {
    if n == 0 then [] else [false, true] + Interfering(n - 1)
  }

  /** The outer loop of `lock()` has no bound of its own: while peers keep
      clearing the flag for its load and taking it before its exchange, every
      round sees it clear, loses the exchange and starts over, without a
      pause. `n` such rounds leave the call exactly where it started, so the
      rounds grow with the interference and only a finite supply of peer
      stores ends the call. */
  lemma {:induction false} PeersCanStallLock(n: nat, tail: seq<bool>)
    ensures var r := LockSpec(true, Interfering(n) + tail);
      var t := LockSpec(true, tail);
      r == t.(rounds := t.rounds + n)
  {
    var p := Interfering(n) + tail;
    if n == 0 {
      assert p == tail;
    } else {
      var q := Interfering(n - 1) + tail;
      assert p == [false, true] + q;
      assert Spin(true, p, 1) == SawClear(p[1..], 0);
      assert Observe(false, p[1..]) == (true, q);
      PeersCanStallLock(n - 1, tail);
    }
  }

  /** The cell: `busy_flag` next to `value`. */
  class PaddedValue<T> {
    var busyFlag: bool
    var value: T

    constructor (v: T)
      ensures !busyFlag && value == v
    {
      busyFlag := false;
      value := v;
    }

    /** `lock()`. Returns whether the flag was taken by this call's exchange
        (`acquired`) and how many `pause` instructions it executed. In both
        outcomes the flag is left set: by the exchange when acquired, and as the
        last load saw it when the spin gave up. */
    method Lock(peer: seq<bool>) returns (acquired: bool, pauses: nat)
      modifies this`busyFlag
      ensures acquired == LockSpec(old(busyFlag), peer).acquired
      ensures pauses == LockSpec(old(busyFlag), peer).pauses
      ensures busyFlag
    {
      ghost var goal := LockSpec(busyFlag, peer);
      var k := 0;
      pauses := 0;
      while true
        invariant 0 <= k <= |peer|
        invariant LockSpec(busyFlag, peer[k..]).acquired == goal.acquired
        invariant pauses + LockSpec(busyFlag, peer[k..]).pauses == goal.pauses
        decreases |peer| - k
      {
        LockUnfold(busyFlag, peer[k..]);
        var sawClear, k', roundPauses := SpinRound(peer, k);
        pauses := pauses + roundPauses;
        if !sawClear {
          acquired := false;
          return;
        }
        var seen;
        seen, k := Exchange(peer, k');
        if !seen {
          acquired := true;
          return;
        }
      }
    }

    /** `busy_flag.exchange(true, acquire)`, after the peer's store
        `peer[k0]`, if any: returns what the flag held and leaves it set. */
    method Exchange(peer: seq<bool>, k0: nat) returns (seen: bool, k: nat)
      requires k0 <= |peer|
      modifies this`busyFlag
      ensures k0 <= k <= |peer|
      ensures (seen, peer[k..]) == Observe(old(busyFlag), peer[k0..])
      ensures busyFlag
    {
      seen, k := busyFlag, k0;
      if k < |peer| {
        assert peer[k0..][1..] == peer[k0 + 1..];
        seen := peer[k];
        k := k + 1;
      }
      busyFlag := true;
    }

    /** One round of the inner spin of `lock()`: loads the flag (after the
        peer's store `peer[k0]`, if any) until it reads clear or the round of
        delays 1, 2, ..., 128 is spent. */
    method SpinRound(peer: seq<bool>, k0: nat) returns (sawClear: bool, k: nat, pauses: nat)
      requires k0 <= |peer|
      modifies this`busyFlag
      ensures k0 <= k <= |peer|
      ensures sawClear == Spin(old(busyFlag), peer[k0..], 1).SawClear?
      ensures peer[k..] == Spin(old(busyFlag), peer[k0..], 1).rest
      ensures pauses == Spin(old(busyFlag), peer[k0..], 1).pauses
      ensures busyFlag == !sawClear
    {
      ghost var goal := Spin(busyFlag, peer[k0..], 1);
      var delay := 1;
      k, pauses := k0, 0;
      while true
        invariant k0 <= k <= |peer|
        invariant IsSpinDelay(delay)
        invariant Spin(busyFlag, peer[k..], delay).SawClear? == goal.SawClear?
        invariant Spin(busyFlag, peer[k..], delay).rest == goal.rest
        invariant pauses + Spin(busyFlag, peer[k..], delay).pauses == goal.pauses
        decreases 256 - delay
      {
        SpinUnfold(busyFlag, peer[k..], delay);
        // relaxed load, after the peer's store
        if k < |peer| {
          assert peer[k..][1..] == peer[k + 1..];
          busyFlag := peer[k];
          k := k + 1;
        }
        if !busyFlag {
          sawClear := true;
          return;
        }
        var before := pauses;
        for i := 0 to delay
          invariant pauses == before + i
        {
          pauses := pauses + 1;
        }
        if delay == 128 {
          sawClear := false;
          return;
        }
        ghost var doubled := delay * 2;
        DelayNeverWraps(delay);
        delay := (delay * 2) % 256;
        assert delay == doubled;
      }
    }

    /** `unlock()`: clears the flag whatever `lock()` returned, so a caller the
        spin let in by force clears a flag some other holder set. */
    method Unlock()
      modifies this`busyFlag
      ensures !busyFlag
    {
      busyFlag := false;
    }
  }
}
