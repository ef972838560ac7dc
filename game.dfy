/** The game loop of `main` (main.py:135-192) run in place. The locals of `main` are a
    Locals record; the targets are Target objects, held by reference in a list that the
    passes append to and delete from, and that the update pass changes in place. Every
    method is proved against the rules of module Rules. */
module Game {
  import opened Targets
  import opened Lists
  import opened Rules

  /** The values held by a list of target objects. */
  function Views(ts: seq<Target>): (vs: seq<TargetState>)
    reads ts
    ensures |vs| == |ts|
  {
    seq(|ts|, k requires 0 <= k < |ts| reads ts => ts[k].View())
  }

  /** Entry k of Views(ts) is the value of object k. */
  lemma {:induction false} ViewsAt(ts: seq<Target>, k: nat)
    requires k < |ts|
    ensures Views(ts)[k] == ts[k].View()
    decreases |ts|
  {
    if k < |ts| - 1 {
      assert ts[..|ts| - 1][k] == ts[k];
      ViewsAt(ts[..|ts| - 1], k);
    }
  }

  lemma ViewsAll(ts: seq<Target>)
    ensures forall k :: 0 <= k < |ts| ==> Views(ts)[k] == ts[k].View()
  {
    forall k | 0 <= k < |ts| {
      ViewsAt(ts, k);
    }
  }

  /** Objects whose values are vs entry by entry have the views vs. */
  lemma {:induction false} ViewsEq(ts: seq<Target>, vs: seq<TargetState>)
    requires |ts| == |vs|
    requires forall k :: 0 <= k < |ts| ==> ts[k].View() == vs[k]
    ensures Views(ts) == vs
    decreases |ts|
  {
    if ts != [] {
      ViewsEq(ts[..|ts| - 1], vs[..|vs| - 1]);
      assert vs == vs[..|vs| - 1] + [vs[|vs| - 1]];
    }
  }

  /** Deleting an object deletes its value. */
  lemma ViewsDelete(ts: seq<Target>, i: nat)
    requires i < |ts|
    ensures Views(DeleteAt(ts, i)) == DeleteAt(Views(ts), i)
  {
    ViewsAll(ts);
    ViewsEq(DeleteAt(ts, i), DeleteAt(Views(ts), i));
  }

  lemma ViewsAppend(ts: seq<Target>, t: Target)
    ensures Views(ts + [t]) == Views(ts) + [t.View()]
    ensures (ts + [t])[..|ts|] == ts
  {
    assert (ts + [t])[..|ts|] == ts;
  }

  /** Appending a new object to a list without duplicates leaves none, and appends its
      value. */
  lemma Append(ts: seq<Target>, t: Target)
    requires Distinct(ts) && t !in ts
    ensures Distinct(ts + [t])
    ensures Views(ts + [t]) == Views(ts) + [t.View()]
    ensures (ts + [t])[..|ts|] == ts
  {
    DistinctAppend(ts, t);
    ViewsAppend(ts, t);
  }

  /** The local variables of `main` that outlive one pass of `while run`
      (main.py:136-144), together with `click`. */
  datatype Locals = Locals(
    targets: seq<Target>,
    targetsPressed: nat,
    clicks: nat,
    misses: nat,
    run: bool,
    click: bool)

  /** No target object is in the list twice. */
  ghost predicate Valid(l: Locals) {
    Distinct(l.targets)
  }

  /** The values the locals hold. */
  function Value(l: Locals): Snapshot
    reads l.targets
  {
    Snapshot(Views(l.targets), l.targetsPressed, l.clicks, l.misses, l.run, l.click)
  }

  /** The locals as `main` sets them before its loop, main.py:136-144. */
  method Begin() returns (l: Locals)
    ensures Valid(l) && Value(l) == Start
  {
    l := Locals([], 0, 0, 0, true, false);
  }

  /** `targets.append(Target(x, y))`, main.py:163: a new target object at the end. */
  method AddTarget(ts: seq<Target>, x: int, y: int) returns (ts': seq<Target>)
    requires Distinct(ts)
    ensures Distinct(ts')
    ensures Views(ts') == Views(ts) + [Fresh(x, y)]
    ensures |ts'| == |ts| + 1 && ts'[..|ts|] == ts && fresh(ts'[|ts|])
  {
    var t := new Target(x, y);
    Append(ts, t);
    ts' := ts + [t];
  }

  /** The event loop, main.py:156-169: a quit clears `run` and ends the loop, a timer event
      appends a new target at the position drawn for it, a press sets `click` and counts a
      click. The targets already in the list are kept, and every one appended is new. */
  method EventPass(l: Locals, events: seq<Event>) returns (l': Locals)
    requires Valid(l)
    ensures Valid(l') && Value(l') == Events(Value(l), events)
    ensures |l.targets| <= |l'.targets| && l'.targets[..|l.targets|] == l.targets
    ensures forall t :: t in l'.targets ==> t in l.targets || fresh(t)
  {
    l' := l;
    var k := 0;
    while k < |events|
      invariant k <= |events|
      invariant Valid(l')
      invariant Events(Value(l), events) == Events(Value(l'), events[k..])
      invariant |l.targets| <= |l'.targets| && l'.targets[..|l.targets|] == l.targets
      invariant forall t :: t in l'.targets ==> t in l.targets || fresh(t)
    {
      match events[k] {
        case Quit =>
          l' := l'.(run := false);
          break;
        case Spawn(x, y) =>
          var ts := AddTarget(l'.targets, x, y);
          l' := l'.(targets := ts);
        case MouseDown =>
          l' := l'.(click := true, clicks := l'.clicks + 1);
        case Other =>
      }
      k := k + 1;
    }
  }

  /** The body of `for target in targets`, main.py:173-183, for the target at index i, as
      Rules.Visit states it: the object is updated, deleted as a miss once its size is 0 or
      below, and deleted as a hit when the click lands on it. It returns false where the
      second `targets.remove` raises ValueError, and otherwise the misses and hits it
      counted. */
  method UpdateTarget(ts: seq<Target>, i: nat, click: bool, mx: int, my: int)
    returns (ok: bool, ts': seq<Target>, missed: nat, hit: nat)
    requires Distinct(ts) && i < |ts|
    modifies ts[i]
    ensures forall t :: t in ts' ==> t in ts
    ensures ok == Visit(old(Views(ts)), i, click, mx, my).Swept?
    ensures ok ==> var v := Visit(old(Views(ts)), i, click, mx, my);
      && Distinct(ts')
      && Views(ts') == v.kept && missed == v.missed && hit == v.hit
  {
    ghost var before := Views(ts);
    ts', missed, hit := ts, 0, 0;
    var t := ts[i];
    t.Update();
    assert Views(ts) == before[i := t.View()];
    RemoveDistinct(ts, i);
    ViewsDelete(ts, i);
    if t.size <= 0 {
      var rest := RemoveFirst(ts', t);
      ts' := rest.value;
      missed := missed + 1;
    }
    if click && t.Collide(mx, my) {
      var rest := RemoveFirst(ts', t);
      if rest.None? {
        return false, ts', missed, hit;
      }
      ts' := rest.value;
      hit := hit + 1;
    }
    ok := true;
  }

  /** The target update loop, main.py:172-183, with Python's walk over a list that its body
      deletes from. It returns false where line 182 raises ValueError; otherwise the list it
      returns holds the values Rules.PassFrom keeps, and the misses and hits are the counts
      it gives. Only objects of the old list remain. */
  method UpdatePass(ts: seq<Target>, click: bool, mx: int, my: int)
    returns (ok: bool, kept: seq<Target>, missed: nat, hit: nat)
    requires Distinct(ts)
    modifies set t | t in ts
    ensures ok == PassFrom(old(Views(ts)), 0, click, mx, my).Swept?
    ensures ok ==> var r := PassFrom(old(Views(ts)), 0, click, mx, my);
      && Distinct(kept)
      && Views(kept) == r.kept && missed == r.missed && hit == r.hit
    ensures forall t :: t in kept ==> t in ts
  {
    ghost var start := Views(ts);
    ghost var vs := start;
    kept, missed, hit := ts, 0, 0;
    var i := 0;
    while i < |kept|
      invariant Distinct(kept) && Views(kept) == vs
      invariant forall t :: t in kept ==> t in ts
      invariant PassFrom(start, 0, click, mx, my) == WithCounts(PassFrom(vs, i, click, mx, my), missed, hit)
      decreases |kept| - i
    {
      PassGoesOn(start, vs, i, missed, hit, click, mx, my);
      ghost var v := Visit(vs, i, click, mx, my);
      assert kept[i] in kept;
      var m, h;
      ok, kept, m, h := UpdateTarget(kept, i, click, mx, my);
      if !ok {
        return;
      }
      vs, missed, hit := v.kept, missed + m, hit + h;
      i := i + 1;
    }
    ok := true;
  }

  /** One pass of the body of `while run`, main.py:150-191: reset `click`, handle the
      events, update the targets, then enter the end screen or draw the top bar. */
  method RunFrame(l: Locals, f: FrameInput) returns (o: Outcome, l': Locals)
    requires Valid(l)
    modifies set t | t in l.targets
    ensures o == Frame(old(Value(l)), f).1
    ensures o != Crashed ==> Valid(l') && Value(l') == Frame(old(Value(l)), f).0
    ensures forall t :: t in l'.targets ==> t in l.targets || fresh(t)
  {
    var e := EventPass(l.(click := false), f.events);
    PassIsSweep(Views(e.targets), e.click, f.mx, f.my);
    var ok, kept, missed, hit := UpdatePass(e.targets, e.click, f.mx, f.my);
    l' := e.(targets := kept, misses := e.misses + missed, targetsPressed := e.targetsPressed + hit);
    if !ok {
      return Crashed, l';
    }
    if l'.misses >= LIVES {
      return EndScreen(l'.targetsPressed, l'.clicks), l';
    }
    return TopBar(l'.targetsPressed, LIVES - l'.misses), l';
  }

  /** `main`, main.py:135-192, over the frames given: it begins with no targets and no
      counts and runs `while run` until `run` is cleared, the end screen is entered, a
      ValueError is raised, or the frames run out. What it shows on each frame is what
      Rules.Play gives. */
  method RunGame(frames: seq<FrameInput>) returns (outs: seq<Outcome>)
    ensures outs == Play(Start, frames)
  {
    var l := Begin();
    ghost var s := Start;
    outs := [];
    var k := 0;
    while k < |frames| && l.run
      invariant k <= |frames|
      invariant Valid(l) && Value(l) == s
      invariant forall t :: t in l.targets ==> fresh(t)
      invariant Play(Start, frames) == outs + Play(s, frames[k..])
    {
      PlayStep(s, frames, k);
      ghost var rest := Play(Frame(s, frames[k]).0, frames[k + 1..]);
      var o;
      o, l := RunFrame(l, frames[k]);
      if !o.TopBar? {
        assert Play(s, frames[k..]) == [o];
        outs := outs + [o];
        return;
      }
      assert outs + ([o] + rest) == (outs + [o]) + rest;
      outs := outs + [o];
      s := Frame(s, frames[k]).0;
      k := k + 1;
    }
    assert k == |frames| || !l.run;
  }
}
