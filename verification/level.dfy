/**
 * `LevelSystem::run` as a pure state transition. Once per tick, while the
 * game is being played, it raises the spawn level every 30 seconds and
 * queues a borderline spawn and a random spawn of ghouls when their
 * intervals have elapsed.
 *
 * Durations since the level started are counted in nanoseconds. The
 * borderline interval the source computes with `f32` arithmetic is an
 * input: a function from the spawn level to whole milliseconds.
 */
module Level {

  import opened Time

  /** How long each spawn level lasts. */
  const SECS_PER_LEVEL: nat := 30

  /** The period of the random spawns. */
  const RANDOM_SPAWN_INTERVAL_SECS: nat := 1

  /** The largest `u8`; the random spawn count is clamped to it. */
  const U8_MAX: nat := 255

  const GHOUL: string := "Ghoul"

  /** `GameEngineState`; the states other than `Playing` are not told apart here. */
  datatype GameEngineState = Playing | NotPlaying

  datatype GameLevelState = GameLevelState(
    spawnLevel: nat,
    spawnLevelStarted: Duration,
    lastBorderlineSpawn: Duration,
    lastRandomSpawn: Duration)

  datatype SpawnType = Borderline | Random

  /** `num` is a `u8` in the source. */
  datatype Count = Count(entity: string, num: nat)

  datatype SpawnAction = SpawnAction(monsters: Count, spawnType: SpawnType)

  /** The level state and spawn queue after a tick. */
  datatype LevelTick = LevelTick(level: GameLevelState, spawnActions: seq<SpawnAction>)

  /**
   * No stored timestamp is later than `now`; the source subtracts each of
   * them from `now` as a `Duration`, which panics on underflow.
   */
  predicate ClockNotBehind(ls: GameLevelState, now: Duration) {
    ls.spawnLevelStarted <= now && ls.lastBorderlineSpawn <= now && ls.lastRandomSpawn <= now
  }

  function Min(a: nat, b: nat): nat {
    if a <= b then a else b
  }

  /** Whether more than a level's length has passed since the level started. */
  predicate LevelDue(ls: GameLevelState, now: Duration)
    requires ClockNotBehind(ls, now)
    ensures LevelDue(ls, now) <==> ls.spawnLevelStarted + SECS_PER_LEVEL * NANOS_PER_SEC < now
  {
    now - ls.spawnLevelStarted > SECS_PER_LEVEL * NANOS_PER_SEC
  }

  /** Whether the borderline interval for `spawnLevel` has passed since the last borderline spawn. */
  predicate BorderlineDue(ls: GameLevelState, spawnLevel: nat, now: Duration, borderlineIntervalMillis: nat -> nat)
    requires ClockNotBehind(ls, now)
    ensures var interval := borderlineIntervalMillis(spawnLevel) * NANOS_PER_MILLI;
            BorderlineDue(ls, spawnLevel, now, borderlineIntervalMillis) <==> ls.lastBorderlineSpawn + interval < now
  {
    now - ls.lastBorderlineSpawn > borderlineIntervalMillis(spawnLevel) * NANOS_PER_MILLI
  }

  /** Whether more than a second has passed since the last random spawn. */
  predicate RandomDue(ls: GameLevelState, now: Duration)
    requires ClockNotBehind(ls, now)
    ensures RandomDue(ls, now) <==> ls.lastRandomSpawn + RANDOM_SPAWN_INTERVAL_SECS * NANOS_PER_SEC < now
  {
    now - ls.lastRandomSpawn > RANDOM_SPAWN_INTERVAL_SECS * NANOS_PER_SEC
  }

  /** How many actions of the given type `actions` holds. */
  function CountOf(actions: seq<SpawnAction>, t: SpawnType): (n: nat)
    ensures n <= |actions|
  {
    if |actions| == 0 then 0
    else CountOf(actions[..|actions| - 1], t) + (if actions[|actions| - 1].spawnType == t then 1 else 0)
  }

  /**
   * What one playing tick appends to the spawn queue, given the level after
   * the level check: exactly one borderline ghoul when its interval has
   * passed and none otherwise, exactly one random spawn of `min(level, 255)`
   * ghouls when a second has passed and none otherwise, borderline first.
   */
  predicate QueuedSpawns(added: seq<SpawnAction>, ls: GameLevelState, level: nat, now: Duration,
                         borderlineIntervalMillis: nat -> nat)
    requires ClockNotBehind(ls, now)
  {
    && |added| <= 2
    && CountOf(added, Borderline) == (if BorderlineDue(ls, level, now, borderlineIntervalMillis) then 1 else 0)
    && CountOf(added, Random) == (if RandomDue(ls, now) then 1 else 0)
    && (forall i, j :: 0 <= i < j < |added| ==>
          added[i].spawnType == Borderline && added[j].spawnType == Random)
    && (forall i :: 0 <= i < |added| && added[i].spawnType == Borderline ==>
          added[i].monsters == Count(GHOUL, 1))
    && (forall i :: 0 <= i < |added| && added[i].spawnType == Random ==>
          added[i].monsters == Count(GHOUL, Min(level, U8_MAX)))
  }

  /** The actions one playing tick appends. */
  function TickSpawns(ls: GameLevelState, level: nat, now: Duration, borderlineIntervalMillis: nat -> nat): (added: seq<SpawnAction>)
    requires ClockNotBehind(ls, now)
    ensures QueuedSpawns(added, ls, level, now, borderlineIntervalMillis)
  {
    var borderline := SpawnAction(Count(GHOUL, 1), Borderline);
    var random := SpawnAction(Count(GHOUL, Min(level, U8_MAX)), Random);
    var b := BorderlineDue(ls, level, now, borderlineIntervalMillis);
    var rd := RandomDue(ls, now);
    if b && rd then
      assert CountOf([borderline, random], Borderline) == 1 by { assert [borderline, random][..1] == [borderline]; }
      assert CountOf([borderline, random], Random) == 1 by { assert [borderline, random][..1] == [borderline]; }
      [borderline, random]
    else if b then
      assert CountOf([borderline], Random) == 0 by { assert [borderline][..0] == []; }
      [borderline]
    else if rd then
      assert CountOf([random], Borderline) == 0 by { assert [random][..0] == []; }
      [random]
    else []
  }

  /**
   * `LevelSystem::run`. Outside `Playing` nothing changes. Otherwise the
   * level advances by one when more than 30 s have passed since it started;
   * then, with the interval of the (possibly advanced) level, one borderline
   * ghoul is queued when that interval has passed since the last borderline
   * spawn, and one random spawn of `min(level, 255)` ghouls when more than a
   * second has passed since the last random spawn. Each spawn that happens
   * restarts its own timer at `now`.
   */
  function Run(engine: GameEngineState, ls: GameLevelState, spawnActions: seq<SpawnAction>,
               now: Duration, borderlineIntervalMillis: nat -> nat): (r: LevelTick)
    requires engine == Playing ==> ClockNotBehind(ls, now)
    ensures engine != Playing ==> r == LevelTick(ls, spawnActions)
    ensures engine == Playing ==>
              && (LevelDue(ls, now) ==>
                    r.level.spawnLevel == ls.spawnLevel + 1 && r.level.spawnLevelStarted == now)
              && (!LevelDue(ls, now) ==>
                    r.level.spawnLevel == ls.spawnLevel && r.level.spawnLevelStarted == ls.spawnLevelStarted)
              && r.level.lastBorderlineSpawn
                   == (if BorderlineDue(ls, r.level.spawnLevel, now, borderlineIntervalMillis) then now
                       else ls.lastBorderlineSpawn)
              && r.level.lastRandomSpawn == (if RandomDue(ls, now) then now else ls.lastRandomSpawn)
    ensures |spawnActions| <= |r.spawnActions| <= |spawnActions| + 2
    ensures r.spawnActions[..|spawnActions|] == spawnActions
    ensures engine == Playing ==>
              QueuedSpawns(r.spawnActions[|spawnActions|..], ls, r.level.spawnLevel, now, borderlineIntervalMillis)
    ensures engine == Playing ==> ClockNotBehind(r.level, now)
    ensures ls.spawnLevel <= r.level.spawnLevel <= ls.spawnLevel + 1
  {
    if engine != Playing then LevelTick(ls, spawnActions)
    else
      var level := if LevelDue(ls, now) then ls.spawnLevel + 1 else ls.spawnLevel;
      var started := if LevelDue(ls, now) then now else ls.spawnLevelStarted;
      var added := TickSpawns(ls, level, now, borderlineIntervalMillis);
      assert (spawnActions + added)[|spawnActions|..] == added;
      assert (spawnActions + added)[..|spawnActions|] == spawnActions;
      LevelTick(
        GameLevelState(level, started,
                       if BorderlineDue(ls, level, now, borderlineIntervalMillis) then now else ls.lastBorderlineSpawn,
                       if RandomDue(ls, now) then now else ls.lastRandomSpawn),
        spawnActions + added)
  }

  /** Whether a run of clock readings never goes backwards. */
  predicate NonDecreasing(clocks: seq<Duration>) {
    forall i, j :: 0 <= i < j < |clocks| ==> clocks[i] <= clocks[j]
  }

  /**
   * One `Run` per clock reading, in order, with the engine state held fixed.
   * A non-decreasing clock that starts no earlier than the stored
   * timestamps keeps every tick clear of the `Duration` underflow.
   */
  function RunTicks(engine: GameEngineState, ls: GameLevelState, spawnActions: seq<SpawnAction>,
                    clocks: seq<Duration>, borderlineIntervalMillis: nat -> nat): LevelTick
    requires NonDecreasing(clocks)
    requires engine == Playing && |clocks| > 0 ==> ClockNotBehind(ls, clocks[0])
    decreases |clocks|
  {
    if |clocks| == 0 then LevelTick(ls, spawnActions)
    else
      var first := Run(engine, ls, spawnActions, clocks[0], borderlineIntervalMillis);
      RunTicks(engine, first.level, first.spawnActions, clocks[1..], borderlineIntervalMillis)
  }

  /**
   * Over any number of ticks the queue only grows at the back, by at most
   * two actions per tick, and the spawn level rises by at most one per tick.
   */
  lemma {:induction false} RunTicksBounds(engine: GameEngineState, ls: GameLevelState, spawnActions: seq<SpawnAction>,
                                          clocks: seq<Duration>, borderlineIntervalMillis: nat -> nat)
    requires NonDecreasing(clocks)
    requires engine == Playing && |clocks| > 0 ==> ClockNotBehind(ls, clocks[0])
    ensures var r := RunTicks(engine, ls, spawnActions, clocks, borderlineIntervalMillis);
            && |spawnActions| <= |r.spawnActions| <= |spawnActions| + 2 * |clocks|
            && r.spawnActions[..|spawnActions|] == spawnActions
            && ls.spawnLevel <= r.level.spawnLevel <= ls.spawnLevel + |clocks|
    decreases |clocks|
  {
    if |clocks| > 0 {
      var first := Run(engine, ls, spawnActions, clocks[0], borderlineIntervalMillis);
      var rest := clocks[1..];
      assert NonDecreasing(rest);
      assert engine == Playing && |rest| > 0 ==> ClockNotBehind(first.level, rest[0]);
      RunTicksBounds(engine, first.level, first.spawnActions, rest, borderlineIntervalMillis);
      var r := RunTicks(engine, first.level, first.spawnActions, rest, borderlineIntervalMillis);
      assert RunTicks(engine, ls, spawnActions, clocks, borderlineIntervalMillis) == r;
      assert |first.spawnActions| <= |r.spawnActions| <= |first.spawnActions| + 2 * |rest|;
      assert first.level.spawnLevel <= r.level.spawnLevel <= first.level.spawnLevel + |rest|;
      assert r.spawnActions[..|spawnActions|] == r.spawnActions[..|first.spawnActions|][..|spawnActions|];
    }
  }

  /** Outside `Playing`, any number of ticks leaves everything as it was. */
  lemma {:induction false} RunTicksIdleWhenNotPlaying(ls: GameLevelState, spawnActions: seq<SpawnAction>,
                                                      clocks: seq<Duration>, borderlineIntervalMillis: nat -> nat)
    requires NonDecreasing(clocks)
    ensures RunTicks(NotPlaying, ls, spawnActions, clocks, borderlineIntervalMillis) == LevelTick(ls, spawnActions)
    decreases |clocks|
  {
    if |clocks| > 0 {
      RunTicksIdleWhenNotPlaying(ls, spawnActions, clocks[1..], borderlineIntervalMillis);
    }
  }
}
