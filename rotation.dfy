/** The rotation policy: the 24-hour gate, the sequential advance and the
    random pick, and the two procedures that apply them to the program's
    `WallpaperState`, hand the chosen path to the wallpaper setter and save
    the state. The clock (`time(NULL)`) and the random draw (`rand()`) are
    parameters; the setter is a foreign call whose outcome never reaches the
    state. */
module Rotation {
  import opened Common
  import opened Config
  import opened StateStore

  /** `shouldChangeWallpaper`: a day or more has passed since the last
      change, or there never was one. */
  predicate ShouldChange(s: StateRecord, now: int)
    ensures s.lastChangeTime == 0 ==> ShouldChange(s, now)
    ensures s.lastChangeTime != 0 && s.lastChangeTime <= now < s.lastChangeTime + DaySeconds
      ==> !ShouldChange(s, now)
  {
    now - s.lastChangeTime >= DaySeconds || s.lastChangeTime == 0
  }

  /** The gate stays shut exactly when there was a change and less than a
      day has passed since it; a clock set before the last change also
      keeps it shut. */
  lemma GateShutIff(s: StateRecord, now: int)
    ensures !ShouldChange(s, now) <==> s.lastChangeTime != 0 && now < s.lastChangeTime + DaySeconds
  {
  }

  /** The estimate printed while the gate is shut: the rest of the day in
      whole hours, truncated as C's `/` does. */
  function HoursRemaining(lastChangeTime: int, now: int): (h: int)
    ensures 0 <= now - lastChangeTime < DaySeconds ==>
      0 <= h <= 24 && h * HourSeconds <= DaySeconds - (now - lastChangeTime) < (h + 1) * HourSeconds
    ensures now < lastChangeTime ==> h >= 24
  {
    var left := DaySeconds - (now - lastChangeTime);
    CDivBounds(left, HourSeconds);
    CDiv(left, HourSeconds)
  }

  // ---------------------------------------------------------------------
  // The sequential step

  /** The advance as written, `(wallpaper_index + 1) % count` with C's
      truncating `%`. */
  function NextIndexAsWritten(index: int, count: int): (k: int)
    requires count > 0
    ensures -count < k < count
    ensures k == 0 || (k > 0 <==> index + 1 > 0)
  {
    CRem(index + 1, count)
  }

  /** A negative index read from a corrupt state file carries through the
      truncating `%`: the result is negative and indexes outside the list. */
  lemma NegativeIndexEscapes()
    ensures NextIndexAsWritten(-3, 3) == -2
  {
    assert CDiv(-2, 3) == 0;
  }

  /** The program only ever saves an index below the wallpaper count, but a
      hand-edited or corrupt state file in the same format can hold the
      largest `int` as its index: it loads, and C's `index + 1` then leaves
      the range of `int`, which C leaves undefined. */
  lemma IndexOverflowLoads(path: string, time: int, total: int)
    requires StorablePath(path) && IsInt64(time) && IsInt32(total)
    ensures var r := StateRecord(path, time, 0x7FFF_FFFF, total);
      LoadFile(Some(Serialize(r))) == Some(r) && !IsInt32(r.wallpaperIndex + 1)
  {
    SaveLoadRoundTrip(StateRecord(path, time, 0x7FFF_FFFF, total));
  }

  /** The advance the rotation means: the position after `index` in a list of
      `count` entries, wrapping to 0 after the last. */
  function NextIndex(index: int, count: int): (k: int)
    requires count > 0
    ensures 0 <= k < count
  {
    (index + 1) % count
  }

  /** On every index the program itself stores (never below 0) the written
      and the corrected advance agree. */
  lemma NextIndexAgrees(index: int, count: int)
    requires count > 0 && index >= -1
    ensures NextIndexAsWritten(index, count) == NextIndex(index, count)
  {
    CArithAgreesOnNonNegative(index + 1, count);
  }

  /** The advance visits the entries in order: one past the index, or back to
      the first after the last. */
  lemma NextIndexSteps(index: int, count: int)
    requires count > 0 && 0 <= index < count
    ensures NextIndex(index, count) == if index + 1 < count then index + 1 else 0
  {
  }

  // ---------------------------------------------------------------------
  // What one rotation decides

  datatype Decision =
    | NoWallpapers                  // nothing scanned: the state is untouched
    | Wait(hoursRemaining: int)     // gate shut: the state is untouched
    | Advance(next: StateRecord)    // the new state, whose path goes to the setter

  /** `rotateWallpaper` on the scanned `list`. */
  function Decide(list: seq<string>, s: StateRecord, force: bool, now: int): (d: Decision)
    ensures d.NoWallpapers? <==> |list| == 0
    ensures d.Wait? <==> |list| > 0 && !force && !ShouldChange(s, now)
    ensures d.Advance? ==>
      0 <= d.next.wallpaperIndex < |list| && d.next.lastWallpaper == list[d.next.wallpaperIndex]
      && d.next.totalWallpapers == |list| && d.next.lastChangeTime == now
  {
    if |list| == 0 then NoWallpapers
    else if !force && !ShouldChange(s, now) then Wait(HoursRemaining(s.lastChangeTime, now))
    else
      var k := NextIndex(s.wallpaperIndex, |list|);
      Advance(StateRecord(list[k], now, k, |list|))
  }

  /** The state after a rotation. */
  function AfterRotation(list: seq<string>, s: StateRecord, force: bool, now: int): (r: StateRecord)
    ensures r == s || (0 <= r.wallpaperIndex < |list| && r.lastWallpaper == list[r.wallpaperIndex]
                       && r.totalWallpapers == |list| && r.lastChangeTime == now)
  {
    match Decide(list, s, force, now)
    case Advance(next) => next
    case _ => s
  }

  /** A rotation leaves the state exactly as it was when nothing was scanned
      or when it is not forced and the gate is shut; otherwise it records the
      live count, the next position modulo that count, the time and the path
      at that position. On every stored index from -1 up to the largest
      `int` but one, that position is the one C's `(index + 1) % count`
      computes. */
  lemma RotationEffect(list: seq<string>, s: StateRecord, force: bool, now: int)
    ensures var r := AfterRotation(list, s, force, now);
      if |list| == 0 || (!force && !ShouldChange(s, now)) then r == s
      else
        r.totalWallpapers == |list| && r.wallpaperIndex == NextIndex(s.wallpaperIndex, |list|)
        && r.lastChangeTime == now && r.lastWallpaper == list[r.wallpaperIndex]
        && (s.wallpaperIndex >= -1 && IsInt32(s.wallpaperIndex + 1) ==>
              r.wallpaperIndex == NextIndexAsWritten(s.wallpaperIndex, |list|))
  {
    if |list| > 0 && s.wallpaperIndex >= -1 {
      NextIndexAgrees(s.wallpaperIndex, |list|);
    }
  }

  /** From the zero state the first rotation lands on the second entry (on the
      only one when there is one). */
  lemma FirstRotationFromZero(list: seq<string>, force: bool, now: int)
    requires |list| > 0
    ensures var r := AfterRotation(list, ZeroState, force, now);
      r.wallpaperIndex == (if |list| == 1 then 0 else 1) && r.lastWallpaper == list[r.wallpaperIndex]
  {
  }

  /** The stored total is never used as the modulus: a stored total larger
      than the live list still gives an index inside the live list. */
  lemma LiveCountIsModulus(list: seq<string>, s: StateRecord, t: int, force: bool, now: int)
    ensures AfterRotation(list, s, force, now).wallpaperIndex
         == AfterRotation(list, s.(totalWallpapers := t), force, now).wallpaperIndex
  {
  }

  /** Right after a rotation the gate is shut for the rest of that day: an
      unforced rotation then reports a wait and changes nothing. */
  lemma SecondRotationWaits(list: seq<string>, s: StateRecord, force: bool, now: int, later: int)
    requires Decide(list, s, force, now).Advance?
    requires now != 0 && now <= later < now + DaySeconds
    ensures var r := AfterRotation(list, s, force, now);
      Decide(list, r, false, later) == Wait(HoursRemaining(now, later))
      && AfterRotation(list, r, false, later) == r
  {
  }

  /** `k` forced rotations over an unchanged list move the index `k` places
      on, modulo the list's length; a whole lap brings it back. */
  lemma {:induction false} ForcedRotations(list: seq<string>, s: StateRecord, k: nat, now: int)
    requires |list| > 0 && 0 <= s.wallpaperIndex < |list|
    ensures Repeat(list, s, k, now).wallpaperIndex == (s.wallpaperIndex + k) % |list|
  {
    if k > 0 {
      ForcedRotations(list, s, k - 1, now);
      var prev := Repeat(list, s, k - 1, now);
      assert Repeat(list, s, k, now) == AfterRotation(list, prev, true, now);
      ForcedStep(list, prev, now);
      ModAddOne(s.wallpaperIndex + k - 1, |list|);
    }
  }

  /** A forced rotation always takes the step. */
  lemma ForcedStep(list: seq<string>, s: StateRecord, now: int)
    requires |list| > 0
    ensures AfterRotation(list, s, true, now).wallpaperIndex == NextIndex(s.wallpaperIndex, |list|)
  {
  }

  lemma ModAddOne(a: int, n: int)
    requires n > 0
    ensures (a % n + 1) % n == (a + 1) % n
  {
    var q, r := a / n, a % n;
    assert a == q * n + r;
    if r + 1 < n {
      ModUnique(a + 1, n, q, r + 1);
      ModUnique(r + 1, n, 0, r + 1);
    } else {
      ModUnique(a + 1, n, q + 1, 0);
      ModUnique(r + 1, n, 1, 0);
    }
  }

  /** Euclidean remainders are unique. */
  lemma ModUnique(a: int, n: int, q: int, r: int)
    requires n > 0 && a == q * n + r && 0 <= r < n
    ensures a % n == r
  {
    var q', r' := a / n, a % n;
    assert a == q' * n + r' && 0 <= r' < n;
    assert (q - q') * n == r' - r;
    MultipleBound(q - q', n);
  }

  /** The state after `k` forced rotations at time `now`. */
  function Repeat(list: seq<string>, s: StateRecord, k: nat, now: int): StateRecord {
    if k == 0 then s else AfterRotation(list, Repeat(list, s, k - 1, now), true, now)
  }

  lemma FullLap(list: seq<string>, s: StateRecord, now: int)
    requires |list| > 0 && 0 <= s.wallpaperIndex < |list|
    ensures Repeat(list, s, |list|, now).wallpaperIndex == s.wallpaperIndex
  {
    ForcedRotations(list, s, |list|, now);
    ModUnique(s.wallpaperIndex + |list|, |list|, 1, s.wallpaperIndex);
  }

  // ---------------------------------------------------------------------
  // The random pick

  /** `setRandomWallpaper` with `draw` the value `rand()` returned; `None`
      when nothing was scanned (the state is then untouched). */
  function RandomPick(list: seq<string>, draw: nat, now: int): (r: Option<StateRecord>)
    ensures r.None? <==> |list| == 0
    ensures r.Some? ==>
      0 <= r.value.wallpaperIndex < |list| && r.value.lastWallpaper == list[r.value.wallpaperIndex]
      && r.value.totalWallpapers == |list| && r.value.lastChangeTime == now
  {
    if |list| == 0 then None
    else
      var k := CRem(draw, |list|);
      CArithAgreesOnNonNegative(draw, |list|);
      Some(StateRecord(list[k], now, k, |list|))
  }

  /** The pick lands inside the live list, records it and the time, and does
      not depend on the stored state at all. */
  lemma RandomPickEffect(list: seq<string>, draw: nat, now: int)
    requires |list| > 0
    ensures var r := RandomPick(list, draw, now);
      r.Some? && 0 <= r.value.wallpaperIndex < |list| && r.value.wallpaperIndex == draw % |list|
      && r.value.totalWallpapers == |list| && r.value.lastChangeTime == now
      && r.value.lastWallpaper == list[r.value.wallpaperIndex]
  {
    CArithAgreesOnNonNegative(draw, |list|);
  }

  /** Every entry can be picked: the draw equal to its position picks it. */
  lemma EveryEntryPickable(list: seq<string>, i: nat, now: int)
    requires i < |list|
    ensures RandomPick(list, i, now) == Some(StateRecord(list[i], now, i, |list|))
  {
    CArithAgreesOnNonNegative(i, |list|);
  }

  // ---------------------------------------------------------------------
  // The procedures

  /** `rotateWallpaper`: decides, updates the state in place, hands the new
      path to the setter and saves the state whatever the setter did. The
      file content after the call is returned. */
  method Rotate(wallpapers: array<string>, count: int, state: WallpaperState, force: bool, now: int,
                disk: Option<string>, writable: bool)
    returns (decision: Decision, disk': Option<string>)
    requires 0 <= count <= wallpapers.Length
    modifies state
    ensures decision == Decide(wallpapers[..count], old(state.Value()), force, now)
    ensures state.Value() == AfterRotation(wallpapers[..count], old(state.Value()), force, now)
    ensures disk' == if decision.Advance? && writable then Some(Serialize(state.Value())) else disk
  {
    ghost var list := wallpapers[..count];
    ghost var s := state.Value();
    if count == 0 {
      return NoWallpapers, disk;
    }
    if !force && !ShouldChange(state.Value(), now) {
      var hours := HoursRemaining(state.lastChangeTime, now);
      return Wait(hours), disk;
    }
    state.totalWallpapers := count;
    // The corrected advance: Dafny's `%` never yields a negative index.
    state.wallpaperIndex := (state.wallpaperIndex + 1) % count;
    state.lastChangeTime := now;
    state.lastWallpaper := wallpapers[state.wallpaperIndex];
    SetWallpaper(state.lastWallpaper);
    disk' := state.Save(disk, writable);
    decision := Advance(state.Value());
  }

  /** `setRandomWallpaper`, with `draw` the value of `rand()`. */
  method SetRandom(wallpapers: array<string>, count: int, state: WallpaperState, draw: nat, now: int,
                   disk: Option<string>, writable: bool)
    returns (picked: Option<StateRecord>, disk': Option<string>)
    requires 0 <= count <= wallpapers.Length
    modifies state
    ensures picked == RandomPick(wallpapers[..count], draw, now)
    ensures state.Value() == if picked.Some? then picked.value else old(state.Value())
    ensures disk' == if picked.Some? && writable then Some(Serialize(state.Value())) else disk
  {
    if count == 0 {
      return None, disk;
    }
    var randomIndex := CRem(draw, count);
    CArithAgreesOnNonNegative(draw, count);
    state.wallpaperIndex := randomIndex;
    state.lastChangeTime := now;
    state.totalWallpapers := count;
    state.lastWallpaper := wallpapers[randomIndex];
    SetWallpaper(state.lastWallpaper);
    disk' := state.Save(disk, writable);
    picked := Some(state.Value());
  }

  /** `setWallpaper`: the platform call is outside the model. Whether it
      succeeds is only reported, so it has no effect on anything modelled. */
  method SetWallpaper(path: string)
  {
  }
}
