/** The mutable clock that hands out hybrid logical timestamps. Its 16-bit counter is modelled with
    the wrap-around of an unchecked build. */
module HybridClocks {
  import opened Text
  import opened Instants
  import opened Hlc
  import Calendar

  const UNIX_EPOCH: nat := 719_528 * Calendar.MILLIS_PER_DAY * NANOS_PER_MILLI

  datatype ClockState = ClockState(lastPhysical: nat, counter: U16, devicePrefix: string)

  function Fresh(devicePrefix: string): ClockState
  {
    ClockState(UNIX_EPOCH, 0, devicePrefix)
  }

  function Stamp(c: ClockState): HlcTimestamp
  {
    HlcTimestamp(c.lastPhysical, c.counter, c.devicePrefix)
  }

  function TruncateToMillis(physical: nat): (t: nat)
    ensures t <= physical < t + NANOS_PER_MILLI && t % NANOS_PER_MILLI == 0
  {
    physical / NANOS_PER_MILLI * NANOS_PER_MILLI
  }

  function Max(a: nat, b: nat): nat
  {
    if a < b then b else a
  }

  function Wrap(n: nat): U16
  {
    n % 65536
  }

  /** A counter that has wrapped to zero carries into the next millisecond. */
  function Carry(c: ClockState): ClockState
  {
    if c.counter == 0 then c.(lastPhysical := c.lastPhysical + NANOS_PER_MILLI) else c
  }

  function TickAt(c: ClockState, wall: nat): ClockState
  {
    var physical := TruncateToMillis(wall);
    if physical > c.lastPhysical then c.(lastPhysical := physical, counter := 0)
    else if c.counter == 65535 then c.(lastPhysical := c.lastPhysical + NANOS_PER_MILLI, counter := 0)
    else c.(counter := c.counter + 1)
  }

  function MergeAt(c: ClockState, remote: HlcTimestamp, wall: nat): ClockState
  {
    var physical := TruncateToMillis(wall);
    var maxPhysical := Max(Max(physical, c.lastPhysical), remote.physical);
    if maxPhysical == physical && physical > c.lastPhysical && physical > remote.physical then
      c.(lastPhysical := physical, counter := 0)
    else if maxPhysical == remote.physical && remote.physical > c.lastPhysical then
      c.(lastPhysical := remote.physical, counter := if remote.counter == 65535 then 65535 else remote.counter + 1)
    else if maxPhysical == c.lastPhysical && c.lastPhysical > remote.physical then
      Carry(c.(counter := Wrap(c.counter + 1)))
    else
      Carry(c.(counter := Wrap(Max(c.counter, remote.counter) + 1)))
  }

  class HybridClock {
    var lastPhysical: nat
    var counter: U16
    const devicePrefix: string

    /** `deviceHex` is the device UUID without hyphens; its first twelve characters identify the clock. */
    constructor (deviceHex: string)
      ensures State() == Fresh(if |deviceHex| < 12 then deviceHex else deviceHex[..12])
    {
      lastPhysical := UNIX_EPOCH;
      counter := 0;
      devicePrefix := if |deviceHex| < 12 then deviceHex else deviceHex[..12];
    }

    function State(): ClockState
      reads this
    {
      ClockState(lastPhysical, counter, devicePrefix)
    }

    /** `now_at`. */
    method NowAt(wall: nat) returns (t: HlcTimestamp)
      modifies this
      ensures State() == TickAt(old(State()), wall)
      ensures t == Stamp(State()) && Above(t, old(Stamp(State())))
      ensures wall / NANOS_PER_MILLI * NANOS_PER_MILLI > old(lastPhysical) ==>
        t.physical == wall / NANOS_PER_MILLI * NANOS_PER_MILLI && t.counter == 0
      ensures wall / NANOS_PER_MILLI * NANOS_PER_MILLI <= old(lastPhysical) && old(counter) < 65535 ==>
        t.physical == old(lastPhysical) && t.counter == old(counter) + 1
      ensures wall / NANOS_PER_MILLI * NANOS_PER_MILLI <= old(lastPhysical) && old(counter) == 65535 ==>
        t.physical == old(lastPhysical) + NANOS_PER_MILLI && t.counter == 0
    {
      var physical := TruncateToMillis(wall);
      if physical > lastPhysical {
        lastPhysical := physical;
        counter := 0;
      } else if counter == 65535 {
        lastPhysical := lastPhysical + NANOS_PER_MILLI;
        counter := 0;
      } else {
        counter := counter + 1;
      }
      t := HlcTimestamp(lastPhysical, counter, devicePrefix);
    }

    /** `update_at`. */
    method UpdateAt(remote: HlcTimestamp, wall: nat) returns (t: HlcTimestamp)
      modifies this
      ensures State() == MergeAt(old(State()), remote, wall)
      ensures t == Stamp(State()) && Above(t, old(Stamp(State())))
      ensures Above(t, remote) <==> !Saturates(old(State()), remote, wall)
    {
      MergeAdvances(State(), remote, wall);
      var physical := TruncateToMillis(wall);
      var maxPhysical := Max(Max(physical, lastPhysical), remote.physical);
      if maxPhysical == physical && physical > lastPhysical && physical > remote.physical {
        lastPhysical := physical;
        counter := 0;
      } else if maxPhysical == remote.physical && remote.physical > lastPhysical {
        lastPhysical := remote.physical;
        // A saturated sum is never zero, so the source's carry after it is dead code.
        counter := if remote.counter == 65535 then 65535 else remote.counter + 1;
      } else if maxPhysical == lastPhysical && lastPhysical > remote.physical {
        counter := Wrap(counter + 1);
        if counter == 0 {
          lastPhysical := lastPhysical + NANOS_PER_MILLI;
        }
      } else {
        counter := Wrap(Max(counter, remote.counter) + 1);
        if counter == 0 {
          lastPhysical := lastPhysical + NANOS_PER_MILLI;
        }
      }
      t := HlcTimestamp(lastPhysical, counter, devicePrefix);
    }
  }

  // ---------------------------------------------------------------------------
  // Monotonicity
  // ---------------------------------------------------------------------------

  /** Strict order on (physical, counter). */
  predicate Above(a: HlcTimestamp, b: HlcTimestamp)
  {
    a.physical > b.physical || (a.physical == b.physical && a.counter > b.counter)
  }

  /** The one case in which merging does not get past the remote stamp: it is ahead of both the
      wall clock and the local clock, and its counter is already at the maximum. */
  predicate Saturates(c: ClockState, remote: HlcTimestamp, wall: nat)
  {
    remote.counter == 65535 && remote.physical > c.lastPhysical && remote.physical >= TruncateToMillis(wall)
  }

  lemma MergeAdvances(c: ClockState, remote: HlcTimestamp, wall: nat)
    ensures Above(Stamp(MergeAt(c, remote, wall)), Stamp(c))
    ensures Above(Stamp(MergeAt(c, remote, wall)), remote) <==> !Saturates(c, remote, wall)
  {
  }

  /** A call on the clock. */
  datatype Event = Now(wall: nat) | Update(remote: HlcTimestamp, wall: nat)

  function StepClock(c: ClockState, e: Event): ClockState
  {
    match e
    case Now(wall) => TickAt(c, wall)
    case Update(remote, wall) => MergeAt(c, remote, wall)
  }

  /** The clock after the first `n` calls. */
  function After(c: ClockState, es: seq<Event>, n: nat): ClockState
    requires n <= |es|
  {
    if n == 0 then c else StepClock(After(c, es, n - 1), es[n - 1])
  }

  /** Over any calls with any wall-clock readings, forward or backward, every stamp is strictly
      above all earlier ones. */
  lemma {:induction false} ClockRunIsStrictlyIncreasing(c: ClockState, es: seq<Event>, i: nat, j: nat)
    requires i < j <= |es|
    ensures Above(Stamp(After(c, es, j)), Stamp(After(c, es, i)))
    decreases j
  {
    if i < j - 1 {
      ClockRunIsStrictlyIncreasing(c, es, i, j - 1);
    }
    var before := After(c, es, j - 1);
    match es[j - 1]
    case Now(wall) =>
    case Update(remote, wall) => MergeAdvances(before, remote, wall);
  }

  /** Every later stamp of a run is above the remote stamp passed in at step `i`, unless that very
      step saturates. */
  lemma ClockRunPassesRemotes(c: ClockState, es: seq<Event>, i: nat, j: nat)
    requires i < j <= |es| && es[i].Update?
    requires !Saturates(After(c, es, i), es[i].remote, es[i].wall)
    ensures Above(Stamp(After(c, es, j)), es[i].remote)
  {
    MergeAdvances(After(c, es, i), es[i].remote, es[i].wall);
    assert After(c, es, i + 1) == MergeAt(After(c, es, i), es[i].remote, es[i].wall);
    if i + 1 < j {
      ClockRunIsStrictlyIncreasing(c, es, i + 1, j);
    }
  }

  /** Whole milliseconds in, whole milliseconds out. */
  lemma {:induction false} ClockRunKeepsMillis(c: ClockState, es: seq<Event>, n: nat)
    requires n <= |es| && c.lastPhysical % NANOS_PER_MILLI == 0
    requires forall i :: 0 <= i < n && es[i].Update? ==> es[i].remote.physical % NANOS_PER_MILLI == 0
    ensures After(c, es, n).lastPhysical % NANOS_PER_MILLI == 0
  {
    hide StepClock;
    if n > 0 {
      ClockRunKeepsMillis(c, es, n - 1);
      CallKeepsMillis(After(c, es, n - 1), es[n - 1]);
    }
  }

  lemma CallKeepsMillis(c: ClockState, e: Event)
    requires c.lastPhysical % NANOS_PER_MILLI == 0 && (e.Update? ==> e.remote.physical % NANOS_PER_MILLI == 0)
    ensures StepClock(c, e).lastPhysical % NANOS_PER_MILLI == 0
  {
  }

  /** On whole milliseconds the clock's order is the causal order of the stamps. */
  lemma AboveIsBefore(a: HlcTimestamp, b: HlcTimestamp)
    requires a.physical % NANOS_PER_MILLI == 0 && b.physical % NANOS_PER_MILLI == 0
    ensures Above(b, a) ==> Before(a, b)
  {
    assert a.physical == Millis(a) * NANOS_PER_MILLI && b.physical == Millis(b) * NANOS_PER_MILLI;
  }

  // ---------------------------------------------------------------------------
  // The stamp follows the clocks
  // ---------------------------------------------------------------------------

  /** The wall reading of a call, cut to milliseconds. */
  function Reading(e: Event): nat
  {
    e.wall / NANOS_PER_MILLI * NANOS_PER_MILLI
  }

  /** The times that a call brings in are at most `t`. */
  predicate Within(e: Event, t: nat)
  {
    Reading(e) <= t && (e.Update? ==> e.remote.physical <= t)
  }

  /** The call brings in the time `t`. */
  predicate Brings(e: Event, t: nat)
  {
    Reading(e) == t || (e.Update? && e.remote.physical == t)
  }

  /** Neither the clock nor the remote stamp has used up its counter. */
  predicate HasCounterLeft(c: ClockState, e: Event)
  {
    c.counter < 65535 && (e.Update? ==> e.remote.counter < 65535)
  }

  /** How many of the first `n` calls meet a counter that is used up. */
  function UsedUp(c: ClockState, es: seq<Event>, n: nat): (count: nat)
    requires n <= |es|
    ensures count <= n
  {
    if n == 0 then 0 else UsedUp(c, es, n - 1) + (if HasCounterLeft(After(c, es, n - 1), es[n - 1]) then 0 else 1)
  }

  /** No stamp of a run is before any wall reading or remote stamp passed in so far, or before the start. */
  lemma {:induction false} ClockRunReachesInputs(c: ClockState, es: seq<Event>, n: nat)
    requires n <= |es|
    ensures c.lastPhysical <= After(c, es, n).lastPhysical
    ensures forall i :: 0 <= i < n ==> Within(es[i], After(c, es, n).lastPhysical)
  {
    if n > 0 {
      ClockRunReachesInputs(c, es, n - 1);
      CallReachesInputs(After(c, es, n - 1), es[n - 1]);
    }
  }

  lemma CallReachesInputs(c: ClockState, e: Event)
    ensures c.lastPhysical <= StepClock(c, e).lastPhysical && Within(e, StepClock(c, e).lastPhysical)
  {
  }

  /** And it is no later than all of these allow: beyond their latest it goes one millisecond at most for each
      counter that was used up. */
  lemma {:induction false} ClockRunStaysNear(c: ClockState, es: seq<Event>, n: nat, latest: nat)
    requires n <= |es| && c.lastPhysical <= latest && forall i :: 0 <= i < n ==> Within(es[i], latest)
    ensures After(c, es, n).lastPhysical <= latest + UsedUp(c, es, n) * NANOS_PER_MILLI
  {
    if n > 0 {
      ClockRunStaysNear(c, es, n - 1, latest);
      CallStaysNear(After(c, es, n - 1), es[n - 1], latest + UsedUp(c, es, n - 1) * NANOS_PER_MILLI);
    }
  }

  lemma CallStaysNear(c: ClockState, e: Event, latest: nat)
    requires c.lastPhysical <= latest && Within(e, latest)
    ensures StepClock(c, e).lastPhysical <= latest + (if HasCounterLeft(c, e) then 0 else NANOS_PER_MILLI)
  {
  }

  /** With counters left, the time of every stamp is exactly the latest of the start, the wall readings and the
      remote stamps so far. */
  lemma ClockRunShowsLatest(c: ClockState, es: seq<Event>, n: nat, latest: nat)
    requires n <= |es| && UsedUp(c, es, n) == 0
    requires c.lastPhysical <= latest && forall i :: 0 <= i < n ==> Within(es[i], latest)
    requires c.lastPhysical == latest || exists i :: 0 <= i < n && Brings(es[i], latest)
    ensures Stamp(After(c, es, n)).physical == latest
  {
    hide StepClock, UsedUp;
    ClockRunReachesInputs(c, es, n);
    ClockRunStaysNear(c, es, n, latest);
  }

  /** The counter starts over when the wall clock is alone in front, and otherwise goes on from the greatest
      counter at the time it shows. */
  lemma CallCounts(c: ClockState, e: Event)
    requires HasCounterLeft(c, e)
    ensures var r := StepClock(c, e);
      r.counter ==
        if r.lastPhysical > c.lastPhysical && (e.Update? ==> r.lastPhysical > e.remote.physical) then 0
        else 1 + Max(if r.lastPhysical == c.lastPhysical then c.counter else 0,
                     if e.Update? && r.lastPhysical == e.remote.physical then e.remote.counter else 0)
    ensures StepClock(c, e).devicePrefix == c.devicePrefix
  {
  }

  // ---------------------------------------------------------------------------
  // The text of a new clock
  // ---------------------------------------------------------------------------

  lemma EpochMoment()
    ensures Calendar.MomentOf(719_528 * Calendar.MILLIS_PER_DAY) ==
      Calendar.Moment(Calendar.Date(1970, 1, 1), 0, 0, 0, 0)
  {
    hide Calendar.DateOf;
    Calendar.UnixEpochIsDay719528();
  }

  lemma EpochPads()
    ensures Pad(1, 2) == "01" && Pad(0, 3) == "000" && Pad(0, 4) == "0000" && Pad(1970, 4) == "1970"
  {
    assert Pad(0, 2) == "00";
    assert Pad(19, 2) == "19";
    assert Pad(197, 3) == "197";
  }

  /** The canonical text of the epoch. */
  lemma TextOfNewClock(prefix: string)
    ensures ToCanonical(Stamp(Fresh(prefix))) == "1970-01-01T00:00:00.000Z-0000-" + prefix
  {
    hide Pad, Calendar.MomentOf, DateTimeText;
    EpochMoment();
    EpochPads();
    SmallPads();
    DateTimeByParts(Calendar.Moment(Calendar.Date(1970, 1, 1), 0, 0, 0, 0));
    assert "1970" + "-" + "01" + "-" + "01" + "T" + ("00" + ":" + "00" + ":" + "00") == "1970-01-01T00:00:00";
    assert "1970-01-01T00:00:00" + ("." + ("000" + "Z")) == "1970-01-01T00:00:00.000Z";
    assert "1970-01-01T00:00:00.000Z" + ("-" + ("0000" + ("-" + prefix))) ==
      "1970-01-01T00:00:00.000Z-0000-" + prefix;
  }
}
