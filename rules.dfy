/** The per-frame rules of the game loop in `main` (main.py:149-191), on values: the event
    pass, the target update pass, the game-over check, and a session as a sequence of
    frames. Module Game runs the same rules in place and is proved against them. */
module Rules {
  import opened Targets
  import opened Lists

  const WIDTH: int := 800
  const HEIGHT: int := 600
  const TARGET_PADDING: int := 30
  const TOP_BAR_HEIGHT: int := 50
  const LIVES: int := 3

  /** The inclusive bounds of the two `random.randint` calls that place a new target. */
  predicate InField(x: int, y: int) {
    && TARGET_PADDING <= x <= WIDTH - TARGET_PADDING
    && TARGET_PADDING + TOP_BAR_HEIGHT <= y <= HEIGHT - TARGET_PADDING
  }

  /** A target as it may appear in the game's list. */
  predicate Sound(t: TargetState) {
    InPlay(t) && InField(t.x, t.y)
  }

  predicate AllSound(ts: seq<TargetState>) {
    forall k :: 0 <= k < |ts| ==> Sound(ts[k])
  }

  /** An event from `pygame.event.get()`. A timer event carries the position that the two
      `randint` calls draw for it; `Other` is any event the loop ignores. */
  datatype Event = Quit | Spawn(x: int, y: int) | MouseDown | Other

  /** Every timer event's position lies within the bounds of `randint`. */
  predicate SpawnsInField(evs: seq<Event>) {
    forall k :: 0 <= k < |evs| && evs[k].Spawn? ==> InField(evs[k].x, evs[k].y)
  }

  /** The local variables of `main` that carry over from frame to frame, and `click`. */
  datatype Snapshot = Snapshot(
    targets: seq<TargetState>,
    targetsPressed: nat,
    clicks: nat,
    misses: nat,
    run: bool,
    click: bool)

  /** The state at the head of the first frame (main.py:136-144). */
  const Start: Snapshot := Snapshot([], 0, 0, 0, true, false)

  // ----- The event pass, main.py:156-169 -----

  /** The body of the event loop for one event: a quit clears `run`, a timer event
      appends a fresh target, a mouse press raises `click` and counts a click, and any other
      event changes nothing. */
  function Handle(s: Snapshot, e: Event): Snapshot {
    match e
    case Quit => s.(run := false)
    case Spawn(x, y) => s.(targets := s.targets + [Fresh(x, y)])
    case MouseDown => s.(click := true, clicks := s.clicks + 1)
    case Other => s
  }

  /** The event loop: each event is handled in turn, and the loop breaks after a quit, so
      that the frame's later events are dropped. */
  function Events(s: Snapshot, evs: seq<Event>): Snapshot
    decreases |evs|
  {
    if evs == [] then s
    else if evs[0].Quit? then Handle(s, evs[0])
    else Events(Handle(s, evs[0]), evs[1..])
  }

  /** The events before the first quit: those the event loop handles. */
  function BeforeQuit(evs: seq<Event>): seq<Event>
    decreases |evs|
  {
    if evs == [] || evs[0] == Quit then []
    else [evs[0]] + BeforeQuit(evs[1..])
  }

  /** The events before the first quit are a prefix of the frame's events that holds no
      quit, and are followed by a quit unless they are all of them. */
  lemma {:induction false} BeforeQuitPrefix(evs: seq<Event>)
    ensures var p := BeforeQuit(evs);
      && |p| <= |evs| && p == evs[..|p|]
      && Quit !in p
      && (p == evs || evs[|p|] == Quit)
    decreases |evs|
  {
    if evs != [] && evs[0] != Quit {
      BeforeQuitPrefix(evs[1..]);
      var q := BeforeQuit(evs[1..]);
      assert evs[..|q| + 1] == [evs[0]] + evs[1..][..|q|];
      assert evs == [evs[0]] + evs[1..];
    }
  }

  /** A fresh target at the position of each timer event, in order. */
  function Spawned(evs: seq<Event>): seq<TargetState>
    decreases |evs|
  {
    if evs == [] then []
    else if evs[0].Spawn? then [Fresh(evs[0].x, evs[0].y)] + Spawned(evs[1..])
    else Spawned(evs[1..])
  }

  /** There is at most one target per event, and each is sound when the timer events are in
      the field. */
  lemma {:induction false} SpawnedSound(evs: seq<Event>)
    ensures |Spawned(evs)| <= |evs|
    ensures SpawnsInField(evs) ==> AllSound(Spawned(evs))
    decreases |evs|
  {
    if evs != [] {
      SpawnedSound(evs[1..]);
      assert SpawnsInField(evs) ==> SpawnsInField(evs[1..]) by {
        if SpawnsInField(evs) {
          forall k | 0 <= k < |evs[1..]| && evs[1..][k].Spawn?
            ensures InField(evs[1..][k].x, evs[1..][k].y)
          {
            assert evs[1..][k] == evs[k + 1];
          }
        }
      }
    }
  }

  /** The number of mouse presses. */
  function Presses(evs: seq<Event>): nat
    decreases |evs|
  {
    if evs == [] then 0
    else (if evs[0] == MouseDown then 1 else 0) + Presses(evs[1..])
  }

  /** There is at most one press per event, and there is one exactly when some event is a
      mouse press. */
  lemma {:induction false} PressesCount(evs: seq<Event>)
    ensures Presses(evs) <= |evs|
    ensures Presses(evs) > 0 <==> MouseDown in evs
    decreases |evs|
  {
    if evs != [] {
      PressesCount(evs[1..]);
      assert evs == [evs[0]] + evs[1..];
    }
  }

  /** Unfolding the before-quit counts over a first event that is not a quit. */
  lemma BeforeQuitTail(evs: seq<Event>)
    requires evs != [] && !evs[0].Quit?
    ensures Spawned(BeforeQuit(evs))
         == (if evs[0].Spawn? then [Fresh(evs[0].x, evs[0].y)] else []) + Spawned(BeforeQuit(evs[1..]))
    ensures Presses(BeforeQuit(evs))
         == (if evs[0] == MouseDown then 1 else 0) + Presses(BeforeQuit(evs[1..]))
  {
    var p := BeforeQuit(evs[1..]);
    assert BeforeQuit(evs) == [evs[0]] + p;
    assert ([evs[0]] + p)[0] == evs[0] && ([evs[0]] + p)[1..] == p;
    if !evs[0].Spawn? {
      assert [] + Spawned(p) == Spawned(p);
    }
  }

  /** The event pass appends one fresh target per timer event before the first quit. */
  lemma {:induction false} EventsTargets(s: Snapshot, evs: seq<Event>)
    ensures Events(s, evs).targets == s.targets + Spawned(BeforeQuit(evs))
    decreases |evs|
  {
    if evs == [] || evs[0].Quit? {
      assert s.targets + [] == s.targets;
    } else {
      var e := evs[0];
      BeforeQuitTail(evs);
      EventsTargets(Handle(s, e), evs[1..]);
      var h := if e.Spawn? then [Fresh(e.x, e.y)] else [];
      var q := Spawned(BeforeQuit(evs[1..]));
      assert Handle(s, e).targets == s.targets + h;
      assert (s.targets + h) + q == s.targets + (h + q);
    }
  }

  /** The event pass leaves the hit and miss counters alone. */
  lemma {:induction false} EventsCounters(s: Snapshot, evs: seq<Event>)
    ensures Events(s, evs).targetsPressed == s.targetsPressed
    ensures Events(s, evs).misses == s.misses
    decreases |evs|
  {
    if evs != [] && !evs[0].Quit? {
      EventsCounters(Handle(s, evs[0]), evs[1..]);
    }
  }

  /** The event pass counts one click per mouse press before the first quit, and clears
      `run` exactly when there is a quit. */
  lemma {:induction false} EventsClicks(s: Snapshot, evs: seq<Event>)
    ensures Events(s, evs).clicks == s.clicks + Presses(BeforeQuit(evs))
    ensures Events(s, evs).click == (s.click || Presses(BeforeQuit(evs)) > 0)
    ensures Events(s, evs).run == (s.run && Quit !in evs)
    decreases |evs|
  {
    if evs != [] && !evs[0].Quit? {
      assert evs == [evs[0]] + evs[1..];
      BeforeQuitTail(evs);
      EventsClicks(Handle(s, evs[0]), evs[1..]);
    }
  }

  /** What one event pass does: it appends one fresh target per timer event and adds one
      click per mouse press, both among the events before the first quit, raises `click`
      exactly when there was such a press, clears `run` exactly when there is a quit, and
      leaves the hit and miss counters alone. */
  lemma EventsEffect(s: Snapshot, evs: seq<Event>)
    ensures Events(s, evs) == s.(
      targets := s.targets + Spawned(BeforeQuit(evs)),
      clicks := s.clicks + Presses(BeforeQuit(evs)),
      click := s.click || Presses(BeforeQuit(evs)) > 0,
      run := s.run && Quit !in evs)
  {
    EventsTargets(s, evs);
    EventsCounters(s, evs);
    EventsClicks(s, evs);
  }

  /** An event pass keeps every target sound when the timer events are in the field. */
  lemma EventsSound(s: Snapshot, evs: seq<Event>)
    requires AllSound(s.targets) && SpawnsInField(evs)
    ensures AllSound(Events(s, evs).targets)
  {
    EventsEffect(s, evs);
    var p := BeforeQuit(evs);
    BeforeQuitPrefix(evs);
    assert SpawnsInField(p) by {
      forall k | 0 <= k < |p| && p[k].Spawn? ensures InField(p[k].x, p[k].y) {
        assert p[k] == evs[k];
      }
    }
    SpawnedSound(p);
  }

  // ----- The target update pass, main.py:172-183 -----

  /** The outcome of an update pass: the list left over and how many targets it counted as
      missed and as hit, or the ValueError that line 182 raises. */
  datatype Swept = Swept(kept: seq<TargetState>, missed: nat, hit: nat) | ValueError

  function WithMiss(r: Swept): Swept {
    if r.ValueError? then r else r.(missed := r.missed + 1)
  }

  function WithHit(r: Swept): Swept {
    if r.ValueError? then r else r.(hit := r.hit + 1)
  }

  function WithFront(p: seq<TargetState>, r: Swept): Swept {
    if r.ValueError? then r else r.(kept := p + r.kept)
  }

  /** The update loop as Python runs it. `for target in targets` walks an index i over the
      list; the body updates the target at i and may delete it from that same list, after
      which i still moves on by one. A target removed as a miss is still tested for a hit,
      and if that test succeeds, `targets.remove` no longer finds it. */
  function PassFrom(ts: seq<TargetState>, i: nat, click: bool, mx: int, my: int): Swept
    decreases |ts| - i
  {
    if i >= |ts| then Swept(ts, 0, 0)
    else
      var t := Step(ts[i]);
      var hitNow := click && Collides(t, mx, my);
      if t.size <= 0 then
        if hitNow then ValueError
        else WithMiss(PassFrom(DeleteAt(ts[i := t], i), i + 1, click, mx, my))
      else if hitNow then WithHit(PassFrom(DeleteAt(ts[i := t], i), i + 1, click, mx, my))
      else PassFrom(ts[i := t], i + 1, click, mx, my)
  }

  /** The counts of misses and hits of a pass, raised by those already made. */
  function WithCounts(r: Swept, missed: nat, hit: nat): Swept {
    if r.ValueError? then r else r.(missed := r.missed + missed, hit := r.hit + hit)
  }

  /** Raising the counts twice raises them by the sums. */
  lemma WithCountsAdd(r: Swept, m: nat, h: nat, m2: nat, h2: nat)
    ensures WithCounts(WithCounts(r, m, h), m2, h2) == WithCounts(r, m + m2, h + h2)
  {
  }

  /** One visit of the loop body to the entry at i: the entry is updated, then deleted as a
      miss once its size is 0 or below and deleted as a hit when the click lands on it. The
      result holds the list afterwards and the miss and hit counted, or ValueError where an
      entry already deleted as a miss is hit as well. */
  function Visit(ts: seq<TargetState>, i: nat, click: bool, mx: int, my: int): (r: Swept)
    requires i < |ts|
    ensures r.ValueError? <==> click && Step(ts[i]).size <= 0 && Collides(Step(ts[i]), mx, my)
    ensures r.Swept? ==> r.missed + r.hit <= 1 && |r.kept| == |ts| - r.missed - r.hit
    ensures r.Swept? ==> (r.missed == 1 <==> Step(ts[i]).size <= 0)
    ensures r.Swept? ==> (r.hit == 1 <==> 0 < Step(ts[i]).size && click && Collides(Step(ts[i]), mx, my))
    ensures r.Swept? && r.missed + r.hit == 0 ==> r.kept == ts[i := Step(ts[i])]
    ensures r.Swept? && r.missed + r.hit == 1 ==> r.kept == DeleteAt(ts, i)
  {
    var t := Step(ts[i]);
    var hitNow := click && Collides(t, mx, my);
    if t.size <= 0 then
      if hitNow then ValueError else Swept(DeleteAt(ts[i := t], i), 1, 0)
    else if hitNow then Swept(DeleteAt(ts[i := t], i), 0, 1)
    else Swept(ts[i := t], 0, 0)
  }

  /** The pass from i on is the visit to i followed by the pass from i + 1 (where the
      following entry has moved down to i after a deletion, and so is passed over). */
  lemma PassFromVisit(ts: seq<TargetState>, i: nat, click: bool, mx: int, my: int)
    requires i < |ts|
    ensures var v := Visit(ts, i, click, mx, my);
      PassFrom(ts, i, click, mx, my)
      == if v.ValueError? then ValueError
         else WithCounts(PassFrom(v.kept, i + 1, click, mx, my), v.missed, v.hit)
  {
  }

  /** The loop from i on continues a pass from 0 whose counts so far are dm and dh: after
      the visit to i it does so from i + 1, and a ValueError at i ends the whole pass. */
  lemma PassGoesOn(start: seq<TargetState>, ts: seq<TargetState>, i: nat, dm: nat, dh: nat,
                   click: bool, mx: int, my: int)
    requires i < |ts|
    requires PassFrom(start, 0, click, mx, my) == WithCounts(PassFrom(ts, i, click, mx, my), dm, dh)
    ensures var v := Visit(ts, i, click, mx, my);
      && (v.ValueError? ==> PassFrom(start, 0, click, mx, my).ValueError?)
      && (v.Swept? ==> PassFrom(start, 0, click, mx, my)
                       == WithCounts(PassFrom(v.kept, i + 1, click, mx, my), dm + v.missed, dh + v.hit))
  {
    PassFromVisit(ts, i, click, mx, my);
    var v := Visit(ts, i, click, mx, my);
    if v.Swept? {
      WithCountsAdd(PassFrom(v.kept, i + 1, click, mx, my), v.missed, v.hit, dm, dh);
    }
  }

  /** The same pass stated entry by entry over the list as it was at the start: an entry is
      updated and then missed, hit or kept, except that the entry just after a removed one
      (`skip`) is passed over untouched. */
  function Sweep(ts: seq<TargetState>, skip: bool, click: bool, mx: int, my: int): Swept
    decreases |ts|
  {
    if ts == [] then Swept([], 0, 0)
    else if skip then WithFront([ts[0]], Sweep(ts[1..], false, click, mx, my))
    else
      var t := Step(ts[0]);
      var hitNow := click && Collides(t, mx, my);
      if t.size <= 0 then
        if hitNow then ValueError
        else WithMiss(Sweep(ts[1..], true, click, mx, my))
      else if hitNow then WithHit(Sweep(ts[1..], true, click, mx, my))
      else WithFront([t], Sweep(ts[1..], false, click, mx, my))
  }

  /** The first m entries of ts in front of what the entry-by-entry rule makes of the rest,
      where m is i, or the whole list when i is past its end. */
  function SplitAt(ts: seq<TargetState>, i: nat, click: bool, mx: int, my: int): Swept {
    var m := if i < |ts| then i else |ts|;
    WithFront(ts[..m], Sweep(ts[m..], false, click, mx, my))
  }

  lemma FrontAssoc(p: seq<TargetState>, q: seq<TargetState>, r: Swept)
    ensures WithFront(p, WithFront(q, r)) == WithFront(p + q, r)
  {
    if !r.ValueError? {
      assert p + (q + r.kept) == (p + q) + r.kept;
    }
  }

  /** The entry at i is kept: the walk and the rule both put its update in front. */
  lemma SplitAtKeep(ts: seq<TargetState>, i: nat, click: bool, mx: int, my: int)
    requires i < |ts|
    requires var t := Step(ts[i]); t.size > 0 && !(click && Collides(t, mx, my))
    ensures SplitAt(ts, i, click, mx, my) == SplitAt(ts[i := Step(ts[i])], i + 1, click, mx, my)
  {
    var t := Step(ts[i]);
    var u := ts[i..];
    assert u[0] == ts[i] && u[1..] == ts[i + 1..];
    var r := Sweep(ts[i + 1..], false, click, mx, my);
    assert Sweep(u, false, click, mx, my) == WithFront([t], r);
    assert ts[i := t][..i + 1] == ts[..i] + [t];
    assert ts[i := t][i + 1..] == ts[i + 1..];
    FrontAssoc(ts[..i], [t], r);
  }

  /** The entry at i is removed: the walk deletes it and steps over its successor, and the
      rule counts it and passes that successor over. */
  lemma SplitAtRemove(ts: seq<TargetState>, i: nat, click: bool, mx: int, my: int)
    requires i < |ts|
    requires var t := Step(ts[i]); t.size <= 0 || (click && Collides(t, mx, my))
    requires var t := Step(ts[i]); !(t.size <= 0 && click && Collides(t, mx, my))
    ensures var d := DeleteAt(ts[i := Step(ts[i])], i);
      SplitAt(ts, i, click, mx, my)
      == if Step(ts[i]).size <= 0 then WithMiss(SplitAt(d, i + 1, click, mx, my))
         else WithHit(SplitAt(d, i + 1, click, mx, my))
  {
    var t := Step(ts[i]);
    var d := DeleteAt(ts[i := t], i);
    var u := ts[i..];
    assert u[0] == ts[i] && u[1..] == ts[i + 1..];
    var after := Sweep(ts[i + 1..], true, click, mx, my);
    assert Sweep(u, false, click, mx, my) == if t.size <= 0 then WithMiss(after) else WithHit(after);
    assert d == ts[..i] + ts[i + 1..];
    if i + 1 < |ts| {
      var v := ts[i + 1..];
      assert v[0] == ts[i + 1] && v[1..] == ts[i + 2..];
      var r := Sweep(ts[i + 2..], false, click, mx, my);
      assert after == WithFront([ts[i + 1]], r);
      assert d[..i + 1] == ts[..i] + [ts[i + 1]];
      assert d[i + 1..] == ts[i + 2..];
      FrontAssoc(ts[..i], [ts[i + 1]], r);
    } else {
      assert ts[i + 1..] == [];
      assert d == ts[..i] && d[|d|..] == [];
    }
  }

  /** Python's index walk and the entry-by-entry rule agree: from index i on, the walk
      leaves the first i entries in front of what the rule makes of the rest. */
  lemma {:induction false} PassFromIsSweep(ts: seq<TargetState>, i: nat, click: bool, mx: int, my: int)
    ensures PassFrom(ts, i, click, mx, my) == SplitAt(ts, i, click, mx, my)
    decreases |ts| - i
  {
    if i >= |ts| {
      assert ts[..|ts|] == ts && ts[|ts|..] == [];
    } else {
      var t := Step(ts[i]);
      var hitNow := click && Collides(t, mx, my);
      if t.size <= 0 && hitNow {
        var u := ts[i..];
        assert u[0] == ts[i];
      } else if t.size <= 0 || hitNow {
        PassFromIsSweep(DeleteAt(ts[i := t], i), i + 1, click, mx, my);
        SplitAtRemove(ts, i, click, mx, my);
      } else {
        PassFromIsSweep(ts[i := t], i + 1, click, mx, my);
        SplitAtKeep(ts, i, click, mx, my);
      }
    }
  }

  /** From the start of the list, the index walk is exactly the entry-by-entry rule. */
  lemma PassIsSweep(ts: seq<TargetState>, click: bool, mx: int, my: int)
    ensures PassFrom(ts, 0, click, mx, my) == Sweep(ts, false, click, mx, my)
  {
    PassFromIsSweep(ts, 0, click, mx, my);
    if ts != [] {
      assert ts[..0] == [] && ts[0..] == ts;
    }
  }

  /** Every target leaves the list at most once, as a miss or as a hit: the list shrinks by
      exactly the number of misses plus hits counted. */
  lemma {:induction false} SweepAccounting(ts: seq<TargetState>, skip: bool, click: bool, mx: int, my: int)
    requires Sweep(ts, skip, click, mx, my).Swept?
    ensures var r := Sweep(ts, skip, click, mx, my); |r.kept| + r.missed + r.hit == |ts|
    decreases |ts|
  {
    if ts != [] {
      SweepAccounting(ts[1..], !skip && (Step(ts[0]).size <= 0 || (click && Collides(Step(ts[0]), mx, my))), click, mx, my);
    }
  }

  /** Without a mouse press in the frame no target is hit and no ValueError is raised. */
  lemma {:induction false} SweepWithoutClick(ts: seq<TargetState>, skip: bool, mx: int, my: int)
    ensures Sweep(ts, skip, false, mx, my).Swept?
    ensures Sweep(ts, skip, false, mx, my).hit == 0
    decreases |ts|
  {
    if ts != [] {
      SweepWithoutClick(ts[1..], !skip && Step(ts[0]).size <= 0, mx, my);
    }
  }

  /** The indices, from i on, of the entries that the entry-by-entry rule keeps. */
  function Survivors(ts: seq<TargetState>, i: nat, skip: bool, click: bool, mx: int, my: int): seq<nat>
    decreases |ts| - i
  {
    if i >= |ts| then []
    else if skip then [i] + Survivors(ts, i + 1, false, click, mx, my)
    else
      var t := Step(ts[i]);
      if t.size <= 0 || (click && Collides(t, mx, my)) then Survivors(ts, i + 1, true, click, mx, my)
      else [i] + Survivors(ts, i + 1, false, click, mx, my)
  }

  /** The pass keeps the remaining targets in their order: entry j of the list it leaves is
      the entry at index Survivors(..)[j] of the list it was given, either untouched or
      updated, and these indices increase strictly. */
  lemma {:induction false} SweepKeepsOrder(ts: seq<TargetState>, i: nat, skip: bool, click: bool, mx: int, my: int)
    requires i <= |ts|
    requires Sweep(ts[i..], skip, click, mx, my).Swept?
    ensures var kept := Sweep(ts[i..], skip, click, mx, my).kept;
      var o := Survivors(ts, i, skip, click, mx, my);
      && |o| == |kept|
      && (forall j :: 0 <= j < |o| ==> i <= o[j] < |ts| && (kept[j] == ts[o[j]] || kept[j] == Step(ts[o[j]])))
      && (forall j, j' :: 0 <= j < j' < |o| ==> o[j] < o[j'])
    decreases |ts| - i
  {
    if i < |ts| {
      var u := ts[i..];
      assert u[0] == ts[i] && u[1..] == ts[i + 1..];
      var t := Step(ts[i]);
      var gone := t.size <= 0 || (click && Collides(t, mx, my));
      SweepKeepsOrder(ts, i + 1, !skip && gone, click, mx, my);
    }
  }

  /** The pass keeps every remaining target sound: each is either untouched or updated with
      its size still positive. */
  lemma {:induction false} SweepSound(ts: seq<TargetState>, skip: bool, click: bool, mx: int, my: int)
    requires AllSound(ts)
    requires Sweep(ts, skip, click, mx, my).Swept?
    ensures AllSound(Sweep(ts, skip, click, mx, my).kept)
    decreases |ts|
  {
    if ts != [] {
      assert Sound(ts[0]) && AllSound(ts[1..]);
      SweepSound(ts[1..], !skip && (Step(ts[0]).size <= 0 || (click && Collides(Step(ts[0]), mx, my))), click, mx, my);
    }
  }

  /** The ValueError needs a mouse press exactly on the centre of a target whose update
      brings it to size exactly 0. */
  lemma {:induction false} SweepErrorCause(ts: seq<TargetState>, skip: bool, click: bool, mx: int, my: int)
    requires Sweep(ts, skip, click, mx, my).ValueError?
    ensures click
    ensures exists k :: 0 <= k < |ts| && ts[k].x == mx && ts[k].y == my && Step(ts[k]).size == 0
    decreases |ts|
  {
    var t := Step(ts[0]);
    if !skip && t.size <= 0 && click && Collides(t, mx, my) {
      CollidesWhenExpired(t, mx, my);
      assert ts[0].x == mx && ts[0].y == my && Step(ts[0]).size == 0;
    } else {
      SweepErrorCause(ts[1..], !skip && (t.size <= 0 || (click && Collides(t, mx, my))), click, mx, my);
      var k :| 0 <= k < |ts[1..]| && ts[1..][k].x == mx && ts[1..][k].y == my && Step(ts[1..][k]).size == 0;
      assert ts[k + 1] == ts[1..][k];
    }
  }

  /** The entry right after a target that the pass removes is neither updated nor tested:
      it comes out as it went in, at the front of the remaining list. */
  lemma SweepSkipsNext(a: TargetState, b: TargetState, rest: seq<TargetState>, click: bool, mx: int, my: int)
    requires Step(a).size <= 0 || (click && Collides(Step(a), mx, my))
    requires !(Step(a).size <= 0 && click && Collides(Step(a), mx, my))
    requires Sweep(rest, false, click, mx, my).Swept?
    ensures Sweep([a, b] + rest, false, click, mx, my).Swept?
    ensures Sweep([a, b] + rest, false, click, mx, my).kept == [b] + Sweep(rest, false, click, mx, my).kept
  {
    var ts := [a, b] + rest;
    assert ts[0] == a && ts[1..] == [b] + rest;
    assert ([b] + rest)[0] == b && ([b] + rest)[1..] == rest;
  }

  /** Two targets on their last step, no mouse press: the first expires and is counted as a
      miss, the second is skipped, so it stays in the list at size 1 and only one miss is
      counted in this frame. */
  lemma SkippedExpiry()
    ensures Sweep([TargetState(100, 100, 1, false), TargetState(200, 200, 1, false)], false, false, 0, 0)
         == Swept([TargetState(200, 200, 1, false)], 1, 0)
  {
    var ts := [TargetState(100, 100, 1, false), TargetState(200, 200, 1, false)];
    assert ts[1..] == [TargetState(200, 200, 1, false)];
    assert ts[1..][1..] == [];
  }

  /** A click on the centre of a target that is still growing or shrinking after its update
      removes it as a hit. */
  lemma CentreClickHits(t: TargetState)
    requires Sound(t) && Step(t).size > 0
    ensures Sweep([t], false, true, t.x, t.y) == Swept([], 0, 1)
  {
    CollidesAtCentre(Step(t));
    assert [t][1..] == [];
  }

  // ----- One frame and a session, main.py:149-191 -----

  /** What the frame shows when it ends: the top bar (hits, lives) and the loop goes on;
      the end screen, which never returns and shows the hits and the accuracy (hits per
      click), so it records the clicks that accuracy is computed from; or the crash of the ValueError. */
  datatype Outcome = TopBar(hits: nat, lives: int) | EndScreen(hits: nat, clicks: nat) | Crashed

  /** The inputs of one frame: the events that `pygame.event.get()` returns, and the mouse
      position read at the start of the frame (main.py:152). */
  datatype FrameInput = FrameInput(events: seq<Event>, mx: int, my: int)

  /** One pass of the body of `while run`: reset `click`, handle the events, update the
      targets, then either enter the end screen or draw the top bar. A quit does not cut the
      frame short: the update pass and the game-over check still run. */
  function Frame(s: Snapshot, f: FrameInput): (Snapshot, Outcome)
  {
    var e := Events(s.(click := false), f.events);
    match Sweep(e.targets, false, e.click, f.mx, f.my)
    case ValueError => (e, Crashed)
    case Swept(kept, missed, hit) =>
      var n := e.(targets := kept, misses := e.misses + missed, targetsPressed := e.targetsPressed + hit);
      if n.misses >= LIVES then (n, EndScreen(n.targetsPressed, n.clicks))
      else (n, TopBar(n.targetsPressed, LIVES - n.misses))
  }

  /** The counts of one frame: clicks grow by the presses before the first quit; the list
      grows by the timer events before that quit and shrinks by one per miss and per hit;
      misses and hits never go down; with no press, the hits stay as they were and there is
      no crash. */
  lemma FrameAccounting(s: Snapshot, f: FrameInput)
    requires Frame(s, f).1 != Crashed
    ensures var (n, _) := Frame(s, f); var p := BeforeQuit(f.events);
      && n.clicks == s.clicks + Presses(p)
      && n.run == (s.run && Quit !in f.events)
      && n.misses >= s.misses && n.targetsPressed >= s.targetsPressed
      && |n.targets| + (n.misses - s.misses) + (n.targetsPressed - s.targetsPressed)
         == |s.targets| + |Spawned(p)|
      && (Presses(p) == 0 ==> n.targetsPressed == s.targetsPressed)
  {
    var e := Events(s.(click := false), f.events);
    EventsEffect(s.(click := false), f.events);
    SweepAccounting(e.targets, false, e.click, f.mx, f.my);
    if Presses(BeforeQuit(f.events)) == 0 {
      SweepWithoutClick(e.targets, false, f.mx, f.my);
    }
  }

  /** A frame with no press before its first quit never crashes. */
  lemma FrameWithoutClickIsSafe(s: Snapshot, f: FrameInput)
    requires Presses(BeforeQuit(f.events)) == 0
    ensures Frame(s, f).1 != Crashed
  {
    EventsEffect(s.(click := false), f.events);
    SweepWithoutClick(Events(s.(click := false), f.events).targets, false, f.mx, f.my);
  }

  /** A frame keeps every target in the list sound. */
  lemma FrameSound(s: Snapshot, f: FrameInput)
    requires AllSound(s.targets) && SpawnsInField(f.events)
    requires Frame(s, f).1 != Crashed
    ensures AllSound(Frame(s, f).0.targets)
  {
    var e := Events(s.(click := false), f.events);
    EventsSound(s.(click := false), f.events);
    SweepSound(e.targets, false, e.click, f.mx, f.my);
  }

  /** The end screen is entered exactly when the misses reach LIVES; otherwise the top bar
      shows between 1 and LIVES lives. */
  lemma FrameGameOver(s: Snapshot, f: FrameInput)
    requires Frame(s, f).1 != Crashed
    ensures var (n, o) := Frame(s, f);
      && (o.EndScreen? <==> n.misses >= LIVES)
      && (o.TopBar? ==> o.lives == LIVES - n.misses && 1 <= o.lives <= LIVES)
  {
  }

  /** A quit does not skip the game-over check: a frame whose only event is a quit still
      counts the miss of a target on its last step and enters the end screen. */
  lemma QuitStillEndsGame()
    ensures Frame(Snapshot([TargetState(100, 100, 1, false)], 4, 9, 2, true, false), FrameInput([Quit], 0, 0))
         == (Snapshot([], 4, 9, 3, false, false), EndScreen(4, 9))
  {
    var s := Snapshot([TargetState(100, 100, 1, false)], 4, 9, 2, true, false);
    assert Events(s.(click := false), [Quit]) == s.(run := false);
    assert [TargetState(100, 100, 1, false)][1..] == [];
  }

  /** The loop `while run` over a sequence of frames: what each frame ends with, up to and
      including the frame that enters the end screen or crashes, after which nothing runs. */
  function Play(s: Snapshot, frames: seq<FrameInput>): seq<Outcome>
    decreases 2 * |frames| + 1
  {
    if frames == [] || !s.run then [] else Continue(Frame(s, frames[0]), frames[1..])
  }

  /** What the session shows from a frame that ended in the state and with the outcome r:
      that outcome, then the rest of the frames if the outcome was the top bar. */
  function Continue(r: (Snapshot, Outcome), rest: seq<FrameInput>): seq<Outcome>
    decreases 2 * |rest| + 2
  {
    if r.1.TopBar? then [r.1] + Play(r.0, rest) else [r.1]
  }

  /** A session that is still running at frame k shows what frame k ends with, and goes on
      with the frames after it exactly when that is the top bar. */
  lemma PlayStep(s: Snapshot, frames: seq<FrameInput>, k: nat)
    requires s.run && k < |frames|
    ensures var (n, o) := Frame(s, frames[k]);
      Play(s, frames[k..]) == [o] + (if o.TopBar? then Play(n, frames[k + 1..]) else [])
  {
    assert frames[k..][0] == frames[k] && frames[k..][1..] == frames[k + 1..];
    var o := Frame(s, frames[k]).1;
    if !o.TopBar? {
      assert [o] + [] == [o];
    }
  }

  /** A session shows one outcome per frame at most, and every outcome but the last is the
      top bar: once the end screen or a crash comes, no later frame runs. */
  lemma {:induction false} PlayEnds(s: Snapshot, frames: seq<FrameInput>)
    ensures var outs := Play(s, frames);
      && |outs| <= |frames|
      && forall k :: 0 <= k < |outs| - 1 ==> outs[k].TopBar?
    decreases |frames|
  {
    if frames != [] && s.run {
      var (n, o) := Frame(s, frames[0]);
      if o.TopBar? {
        PlayEnds(n, frames[1..]);
        var outs := Play(s, frames);
        var rest := Play(n, frames[1..]);
        assert outs == [o] + rest;
        forall k | 0 <= k < |outs| - 1 ensures outs[k].TopBar? {
          if k > 0 {
            assert outs[k] == rest[k - 1];
          }
        }
      }
    }
  }

  /** Whenever the top bar is drawn it shows between 1 and LIVES lives. */
  lemma {:induction false} PlayShowsLives(s: Snapshot, frames: seq<FrameInput>)
    ensures var outs := Play(s, frames);
      forall k :: 0 <= k < |outs| && outs[k].TopBar? ==> 1 <= outs[k].lives <= LIVES
    decreases |frames|
  {
    if frames != [] && s.run {
      var (n, o) := Frame(s, frames[0]);
      if o.TopBar? {
        PlayShowsLives(n, frames[1..]);
        var outs := Play(s, frames);
        assert outs == [o] + Play(n, frames[1..]);
        forall k | 0 <= k < |outs| && outs[k].TopBar? ensures 1 <= outs[k].lives <= LIVES {
          if k > 0 {
            assert outs[k] == Play(n, frames[1..])[k - 1];
          }
        }
      }
    }
  }

  /** The hits a frame shows are the hits counted so far, which never go down. */
  lemma FrameHits(s: Snapshot, f: FrameInput)
    requires Frame(s, f).1 != Crashed
    ensures Frame(s, f).1.hits == Frame(s, f).0.targetsPressed >= s.targetsPressed
  {
    FrameAccounting(s, f);
  }

  /** The hit count shown never drops below the count the session started from. */
  lemma {:induction false} PlayHitsFloor(s: Snapshot, frames: seq<FrameInput>)
    ensures forall k :: 0 <= k < |Play(s, frames)| && !Play(s, frames)[k].Crashed?
                 ==> s.targetsPressed <= Play(s, frames)[k].hits
    decreases |frames|
  {
    if frames != [] && s.run {
      var (n, o) := Frame(s, frames[0]);
      if o != Crashed {
        FrameHits(s, frames[0]);
      }
      if o.TopBar? {
        PlayHitsFloor(n, frames[1..]);
        var outs := Play(s, frames);
        var rest := Play(n, frames[1..]);
        assert outs == [o] + rest;
        assert o.hits == n.targetsPressed >= s.targetsPressed;
        forall k | 0 <= k < |outs| && !outs[k].Crashed? ensures s.targetsPressed <= outs[k].hits {
          if k > 0 {
            assert outs[k] == rest[k - 1];
            assert n.targetsPressed <= rest[k - 1].hits;
          } else {
            assert outs[k] == o;
          }
        }
      }
    }
  }

  /** The hit count shown never goes down from one frame to a later one. (By PlayEnds every
      frame before the last shows the top bar, so only the last one can be a crash.) */
  lemma {:induction false} PlayHitsGrow(s: Snapshot, frames: seq<FrameInput>)
    ensures forall k, l :: 0 <= k < l < |Play(s, frames)|
                    && !Play(s, frames)[k].Crashed? && !Play(s, frames)[l].Crashed?
                    ==> Play(s, frames)[k].hits <= Play(s, frames)[l].hits
    decreases |frames|
  {
    if frames != [] && s.run {
      var (n, o) := Frame(s, frames[0]);
      if o.TopBar? {
        FrameHits(s, frames[0]);
        PlayHitsGrow(n, frames[1..]);
        PlayHitsFloor(n, frames[1..]);
        var outs := Play(s, frames);
        var rest := Play(n, frames[1..]);
        assert outs == [o] + rest;
        forall k, l | 0 <= k < l < |outs| && !outs[k].Crashed? && !outs[l].Crashed? ensures outs[k].hits <= outs[l].hits {
          assert outs[l] == rest[l - 1];
          if k > 0 {
            assert outs[k] == rest[k - 1];
            assert rest[k - 1].hits <= rest[l - 1].hits;
          } else {
            assert o.hits == n.targetsPressed <= rest[l - 1].hits;
          }
        }
      }
    }
  }
}
