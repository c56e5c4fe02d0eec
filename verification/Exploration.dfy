/** Whole runs of the explorer: what every run keeps, and what it has covered when nothing is pending. */
module Exploration {
  import opened Basics
  import opened Classifier
  import opened LoopLimiter
  import opened Explorer

  // ----- The log of hook calls, and the first attempt to schedule each key

  /** For each key the log tried to schedule, the event of the first attempt. */
  function Attempts(cfg: Config, log: seq<Event>): map<Key, Event>
    decreases |log|
  {
    if log == [] then map[]
    else
      var earlier := Attempts(cfg, log[..|log| - 1]);
      match ScheduledKey(cfg, log[|log| - 1])
      case None => earlier
      case Some(key) => if key in earlier then earlier else earlier[key := log[|log| - 1]]
  }

  /** The keys that were pushed: target inside the image, and the snapshot of the first attempt succeeded. */
  function Saved(cfg: Config, log: seq<Event>): set<Key> {
    set k | k in Attempts(cfg, log) && cfg.Inside(k.target) && Attempts(cfg, log)[k].saveOk
  }

  function Keys(bs: seq<Branch>): set<Key> {
    set b | b in bs :: KeyOf(b)
  }

  ghost predicate Distinct(bs: seq<Branch>) {
    forall i, j :: 0 <= i < j < |bs| ==> KeyOf(bs[i]) != KeyOf(bs[j])
  }

  /** Every branch carries the registers of the event that first reached it, before any flag was forced. */
  ghost predicate FromLog(cfg: Config, log: seq<Event>, bs: seq<Branch>) {
    forall b :: b in bs ==> KeyOf(b) in Attempts(cfg, log) && b.ctx == Attempts(cfg, log)[KeyOf(b)].cpu
  }

  /** What holds between a log, the branches started so far and the current state. */
  ghost predicate Explored(cfg: Config, log: seq<Event>, started: seq<Branch>, s: State) {
    && s.visited == Attempts(cfg, log).Keys
    && Distinct(started) && Distinct(s.pending) && Keys(started) !! Keys(s.pending)
    && Keys(started) + Keys(s.pending) == Saved(cfg, log)
    && FromLog(cfg, log, started) && FromLog(cfg, log, s.pending)
  }

  lemma AttemptsGrow(cfg: Config, log: seq<Event>, ev: Event)
    ensures Attempts(cfg, log + [ev]) ==
            match ScheduledKey(cfg, ev)
            case None => Attempts(cfg, log)
            case Some(key) => if key in Attempts(cfg, log) then Attempts(cfg, log) else Attempts(cfg, log)[key := ev]
  {
    assert (log + [ev])[..|log + [ev]| - 1] == log;
  }

  lemma KeysAppend(bs: seq<Branch>, b: Branch)
    ensures Keys(bs + [b]) == Keys(bs) + {KeyOf(b)}
    ensures Distinct(bs) && KeyOf(b) !in Keys(bs) ==> Distinct(bs + [b])
  {
    forall i | 0 <= i < |bs|
      ensures KeyOf(bs[i]) in Keys(bs)
    {
      assert bs[i] in bs;
    }
  }

  lemma LastKeyIsNew(bs: seq<Branch>)
    requires Distinct(bs) && bs != []
    ensures KeyOf(bs[|bs| - 1]) !in Keys(bs[..|bs| - 1])
  {
    forall c | c in bs[..|bs| - 1]
      ensures KeyOf(c) != KeyOf(bs[|bs| - 1])
    {
      var i :| 0 <= i < |bs| - 1 && bs[i] == c;
    }
  }

  lemma ExploredByHook(cfg: Config, log: seq<Event>, started: seq<Branch>, s: State, ev: Event)
    requires cfg.Valid() && Explored(cfg, log, started, s)
    ensures Explored(cfg, log + [ev], started, Hook(cfg, s, ev).state)
  {
    hide Hook, Explored, ScheduledKey;
    HookSchedules(cfg, s, ev);
    match ScheduledKey(cfg, ev)
    case None =>
      ExploredUnchanged(cfg, log, started, s, ev, Hook(cfg, s, ev).state);
    case Some(key) =>
      if key in s.visited {
        ExploredUnchanged(cfg, log, started, s, ev, Hook(cfg, s, ev).state);
      } else if cfg.Inside(key.target) && ev.saveOk {
        ExploredPushed(cfg, log, started, s, ev, key, Hook(cfg, s, ev).state);
      } else {
        ExploredMarked(cfg, log, started, s, ev, key, Hook(cfg, s, ev).state);
      }
  }

  /** Nothing is scheduled, or something tried before. */
  lemma ExploredUnchanged(cfg: Config, log: seq<Event>, started: seq<Branch>, s: State, ev: Event, t: State)
    requires Explored(cfg, log, started, s) && t.pending == s.pending && t.visited == s.visited
    requires ScheduledKey(cfg, ev).None? || ScheduledKey(cfg, ev).value in s.visited
    ensures Explored(cfg, log + [ev], started, t)
  {
    AttemptsGrow(cfg, log, ev);
    hide Attempts, ScheduledKey;
    assert Attempts(cfg, log + [ev]) == Attempts(cfg, log);
    hide Distinct, Keys;
    assert Saved(cfg, log + [ev]) == Saved(cfg, log);
  }

  /** A new key whose snapshot is taken. */
  lemma ExploredPushed(cfg: Config, log: seq<Event>, started: seq<Branch>, s: State, ev: Event, key: Key, t: State)
    requires Explored(cfg, log, started, s) && ScheduledKey(cfg, ev) == Some(key) && key !in s.visited
    requires cfg.Inside(key.target) && ev.saveOk
    requires t.pending == s.pending + [Branch(ev.cpu, key.target, key.rip)] && t.visited == s.visited + {key}
    ensures Explored(cfg, log + [ev], started, t)
  {
    AttemptsGrow(cfg, log, ev);
    hide Attempts, ScheduledKey, Distinct, Keys;
    assert Attempts(cfg, log + [ev]) == Attempts(cfg, log)[key := ev];
    KeysAppend(s.pending, Branch(ev.cpu, key.target, key.rip));
    assert Saved(cfg, log + [ev]) == Saved(cfg, log) + {key};
  }

  /** A new key that is only marked: its target lies outside the image, or its snapshot fails. */
  lemma ExploredMarked(cfg: Config, log: seq<Event>, started: seq<Branch>, s: State, ev: Event, key: Key, t: State)
    requires Explored(cfg, log, started, s) && ScheduledKey(cfg, ev) == Some(key) && key !in s.visited
    requires !cfg.Inside(key.target) || !ev.saveOk
    requires t.pending == s.pending && t.visited == s.visited + {key}
    ensures Explored(cfg, log + [ev], started, t)
  {
    AttemptsGrow(cfg, log, ev);
    hide Attempts, ScheduledKey, Distinct, Keys;
    assert Attempts(cfg, log + [ev]) == Attempts(cfg, log)[key := ev];
    assert Saved(cfg, log + [ev]) == Saved(cfg, log);
  }

  /** branch_manager::take_next moves one branch from the top of the stack to the started list. */
  lemma ExploredByTake(cfg: Config, log: seq<Event>, started: seq<Branch>, s: State)
    requires Explored(cfg, log, started, s) && s.pending != []
    ensures var n := |s.pending| - 1;
            Explored(cfg, log, started + [s.pending[n]], s.(pending := s.pending[..n]))
  {
    var n := |s.pending| - 1;
    var init, b := s.pending[..n], s.pending[n];
    assert s.pending == init + [b];
    KeysAppend(init, b);
    KeysAppend(started, b);
    LastKeyIsNew(s.pending);
  }

  // ----- Consequences

  /** Hook call j of the log is the first that tried to schedule the key. */
  ghost predicate IsFirstAttempt(cfg: Config, log: seq<Event>, key: Key, j: nat) {
    j < |log| && ScheduledKey(cfg, log[j]) == Some(key)
    && forall k :: 0 <= k < j ==> ScheduledKey(cfg, log[k]) != Some(key)
  }

  lemma {:induction false} AttemptsAreFirst(cfg: Config, log: seq<Event>, i: nat, key: Key) returns (j: nat)
    requires i < |log| && ScheduledKey(cfg, log[i]) == Some(key)
    ensures j <= i && IsFirstAttempt(cfg, log, key, j)
    ensures key in Attempts(cfg, log) && Attempts(cfg, log)[key] == log[j]
    decreases |log|
  {
    hide ScheduledKey;
    var n := |log| - 1;
    var init := log[..n];
    if key in Attempts(cfg, init) {
      AttemptsComeFrom(cfg, init, key);
      var k :| 0 <= k < n && init[k] == Attempts(cfg, init)[key];
      j := AttemptsAreFirst(cfg, init, k, key);
    } else {
      forall k | 0 <= k < n
        ensures ScheduledKey(cfg, log[k]) != Some(key)
      {
        assert init[k] == log[k];
        if ScheduledKey(cfg, init[k]) == Some(key) {
          var _ := AttemptsAreFirst(cfg, init, k, key);
        }
      }
      j := n;
    }
  }

  lemma {:induction false} AttemptsComeFrom(cfg: Config, log: seq<Event>, key: Key)
    requires key in Attempts(cfg, log)
    ensures Attempts(cfg, log)[key] in log && ScheduledKey(cfg, Attempts(cfg, log)[key]) == Some(key)
    decreases |log|
  {
    var n := |log| - 1;
    var init := log[..n];
    if key in Attempts(cfg, init) {
      AttemptsComeFrom(cfg, init, key);
    }
  }

  /**
   * Coverage. Once nothing is pending, every target inside the image that a hook call tried to schedule - the
   * fallthrough of a branch, or what an indirect jump or call reads from memory - has had a slice started at it with
   * the registers of the first such call, exactly if the snapshot of that call succeeded.
   */
  lemma NothingPendingMeansCovered(cfg: Config, log: seq<Event>, started: seq<Branch>, s: State, i: nat, key: Key) returns (j: nat)
    requires Explored(cfg, log, started, s) && s.pending == []
    requires i < |log| && ScheduledKey(cfg, log[i]) == Some(key) && cfg.Inside(key.target)
    ensures j <= i && IsFirstAttempt(cfg, log, key, j)
    ensures log[j].saveOk <==> exists b :: b in started && KeyOf(b) == key
    ensures forall b :: b in started && KeyOf(b) == key ==> b.ctx == log[j].cpu
  {
    j := AttemptsAreFirst(cfg, log, i, key);
    hide Attempts, ScheduledKey, IsFirstAttempt;
    assert Keys(s.pending) == {};
    if log[j].saveOk {
      assert key in Keys(started);
    }
    forall b | b in started && KeyOf(b) == key
      ensures log[j].saveOk
    {
      assert KeyOf(b) in Keys(started);
    }
  }

  // ----- Bounds

  function Row(f: nat, lo: nat, hi: nat): set<Key> {
    set t | lo <= t < hi :: Key(f, t)
  }

  function Grid(sources: set<nat>, lo: nat, hi: nat): set<Key> {
    set f, t | f in sources && lo <= t < hi :: Key(f, t)
  }

  /** All keys from a decoded instruction to an address of the image. */
  function AllKeys(cfg: Config): set<Key> {
    Grid(cfg.decoded.Keys, cfg.imageMin, cfg.imageMax)
  }

  function ImageSize(cfg: Config): nat {
    if cfg.imageMin <= cfg.imageMax then cfg.imageMax - cfg.imageMin else 0
  }

  /** The keys that can still be pushed, plus the branches waiting. */
  function Measure(cfg: Config, s: State): nat {
    |AllKeys(cfg) - s.visited| + |s.pending|
  }

  lemma HookMeasure(cfg: Config, s: State, ev: Event)
    requires cfg.Valid()
    ensures Measure(cfg, Hook(cfg, s, ev).state) <= Measure(cfg, s)
  {
    HookSchedules(cfg, s, ev);
    var t := ScheduleEvent(cfg, s, ev);
    match ScheduledKey(cfg, ev)
    case None =>
    case Some(key) =>
      var before, after := AllKeys(cfg) - s.visited, AllKeys(cfg) - (s.visited + {key});
      if key in before {
        assert after == before - {key};
      } else {
        assert after == before;
      }
  }

  lemma TakeMeasure(cfg: Config, s: State)
    requires s.pending != []
    ensures Measure(cfg, s.(pending := s.pending[..|s.pending| - 1])) == Measure(cfg, s) - 1
  {
  }

  lemma ExploredInitially(cfg: Config)
    ensures Explored(cfg, [], [], INITIAL)
  {
    assert Saved(cfg, []) == {};
  }

  lemma {:induction false} RowSize(f: nat, lo: nat, hi: nat)
    ensures |Row(f, lo, hi)| == if lo <= hi then hi - lo else 0
    decreases hi
  {
    if lo < hi {
      RowSize(f, lo, hi - 1);
      assert Row(f, lo, hi) == Row(f, lo, hi - 1) + {Key(f, hi - 1)};
    } else {
      assert Row(f, lo, hi) == {};
    }
  }

  lemma {:induction false} GridSize(sources: set<nat>, lo: nat, hi: nat)
    ensures |Grid(sources, lo, hi)| == |sources| * if lo <= hi then hi - lo else 0
    decreases |sources|
  {
    if sources == {} {
      assert Grid(sources, lo, hi) == {};
    } else {
      var f :| f in sources;
      GridSize(sources - {f}, lo, hi);
      RowSize(f, lo, hi);
      SplitGrid(sources, f, lo, hi);
      TimesMinusOne(|sources|, if lo <= hi then hi - lo else 0);
    }
  }

  lemma TimesMinusOne(n: int, m: int)
    ensures (n - 1) * m + m == n * m
  {
  }

  lemma SplitGrid(sources: set<nat>, f: nat, lo: nat, hi: nat)
    requires f in sources
    ensures |Grid(sources, lo, hi)| == |Grid(sources - {f}, lo, hi)| + |Row(f, lo, hi)|
  {
    assert Grid(sources, lo, hi) == Grid(sources - {f}, lo, hi) + Row(f, lo, hi);
    assert Grid(sources - {f}, lo, hi) !! Row(f, lo, hi);
  }

  lemma {:induction false} DistinctSize(bs: seq<Branch>)
    requires Distinct(bs)
    ensures |Keys(bs)| == |bs|
    decreases |bs|
  {
    if bs == [] {
      assert Keys(bs) == {};
    } else {
      var n := |bs| - 1;
      var init := bs[..n];
      DistinctSize(init);
      assert bs == init + [bs[n]];
      KeysAppend(init, bs[n]);
      LastKeyIsNew(bs);
    }
  }

  lemma SavedAreKeys(cfg: Config, log: seq<Event>)
    ensures Saved(cfg, log) <= AllKeys(cfg)
  {
    forall key | key in Saved(cfg, log)
      ensures key in AllKeys(cfg)
    {
      hide Attempts;
      AttemptsComeFrom(cfg, log, key);
    }
  }

  /** Pushes equal pops plus what is pending, and there are at most |decoded| * |image| of them. */
  lemma PushesAreBounded(cfg: Config, log: seq<Event>, started: seq<Branch>, s: State)
    requires Explored(cfg, log, started, s)
    ensures |Saved(cfg, log)| == |started| + |s.pending|
    ensures |started| + |s.pending| <= |cfg.decoded.Keys| * ImageSize(cfg)
  {
    DistinctSize(started);
    DistinctSize(s.pending);
    SavedAreKeys(cfg, log);
    hide Attempts, Saved, Distinct, FromLog, AllKeys, Grid;
    SubsetSize(Saved(cfg, log), AllKeys(cfg));
    GridSize(cfg.decoded.Keys, cfg.imageMin, cfg.imageMax);
  }
}
