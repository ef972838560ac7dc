# AimRush gameplay core in Dafny

AimRush is a pygame aim trainer (main.py). Targets appear at random positions on a timer.
Each one grows from size 0 to nearly `MAX_SIZE` and shrinks back. The player clicks them
before they vanish. Every target that shrinks away costs one of three lives. Once the
lives are gone, the end screen shows the hits and the accuracy (hits per click).

This project models the rules of that game and proves properties of them. It has four
modules:

- `Targets` (targets.dfy) models the target.
  - A `TargetState` value holds centre, size and phase.
  - `Step` is `Target.update` and `Collides` is `Target.collide`.
  - `Life` gives the state after n updates.
  - The class `Target` holds the same fields and updates them in place.
  - Sizes are counted in steps of `GROWTH_RATE` (0.2 px). `MAX_SIZE` (30 px) is then 150 steps, and the hit test needs no square root.
- `Lists` (lists.dfy) models the Python list operations the loop uses:
  - `list.remove` as `RemoveFirst`, including its ValueError;
  - `DeleteAt` is the deletion that `list.remove` makes at the index it finds;
  - the absence of duplicates.
- `Rules` (rules.dfy) states one frame of `while run` on values.
  - The state of `main` is a `Snapshot`.
  - `Events` is the event loop.
  - `PassFrom` is the target loop as Python runs it: an index walk over a list that the body deletes from.
  - `Sweep` is the same loop stated entry by entry, and `PassIsSweep` proves the two equal.
  - `Frame` is one pass of `while run`, and `Play` is a session over a sequence of frames.
- `Game` (game.dfy) runs the same loops in place.
  - `Target` objects are appended to a list, updated, and deleted from it.
  - Each method is proved against the function of `Rules` that it runs.
  - `RunGame` is `main`. It returns exactly what `Rules.Play` gives for the frames it is handed.

Three details of main.py shape the model:

- A quit event ends only the event loop of its frame (main.py:157-159). The same frame
  still updates the targets and runs the game-over check.
- Deleting the target at index i of the list being walked moves its successor to i. The
  walk then goes on at i + 1, so that successor is neither updated nor tested in that
  frame (main.py:172-183). `SweepSkipsNext` and `SkippedExpiry` state this.
- A target that expires is deleted as a miss and then still tested for a hit (there is no
  `else`). If the click lands on it, the second `targets.remove` raises ValueError
  (main.py:176-182). In sizes counted in exact steps, this can happen only for a size of
  exactly 0 and a click on its centre (`SweepErrorCause`). The model ends the session
  there with the outcome `Crashed`. In IEEE doubles a spawned target never reaches
  exactly 0.0 (see "## Left out"), so this crash is a property of the exact-step model.

## Model

| member | source | states |
|---|---|---|
| Targets.Fresh | main.py:33-38 | No contract of its own. The constructor of Target ensures its value is Fresh, and LifeClosedForm gives the life that starts from it. |
| Targets.Collides | main.py:57-60 | No contract of its own. CollidesIsDisc ties it to the Euclidean test of line 60. |
| Targets.Target.Collide | main.py:57-60 | No contract of its own. It is Collides on the object's value. |
| Rules.InField | main.py:162-163 | No contract of its own. It gives the inclusive `randint` bounds that SpawnedSound, EventsSound and FrameSound assume. |
| Rules.Handle | main.py:157-169 | No contract of its own. EventsEffect states what the loop of handled events does. |
| Rules.Events | main.py:156-169 | No contract of its own. EventsEffect gives its whole result, and BeforeQuitPrefix shows which events it handles. |
| Rules.PassFrom | main.py:172-183 | No contract of its own. PassFromVisit and PassGoesOn unfold it, and PassIsSweep equates it with Sweep. |
| Rules.Sweep | main.py:172-183 | No contract of its own. It is the entry-by-entry reference rule. PassIsSweep equates it with PassFrom, and SweepAccounting, SweepKeepsOrder, SweepSound, SweepErrorCause and SweepSkipsNext state its properties. |
| Rules.Frame | main.py:150-191 | No contract of its own. FrameAccounting, FrameGameOver, FrameSound and FrameWithoutClickIsSafe state its meaning. |
| Rules.Play | main.py:149-192 | No contract of its own. PlayStep, PlayEnds, PlayShowsLives, PlayHitsFloor and PlayHitsGrow state its meaning. |
| Rules.Continue | main.py:149-192 | No contract of its own. It is the rest of Play after one frame, and PlayStep unfolds it. |
| Rules.Start | main.py:136-144 | No contract of its own: the constant state before the loop. Game.Begin ensures its locals hold this value. |
| Targets.Step | main.py:40-48 | An update keeps the centre. `grow` never turns from false back to true. A size below MAX_SIZE stays below it. A target in play stays in play or ends at size 0 or below. |
| Targets.StepRadius | main.py:42-48 | Each update moves the radius by exactly +GROWTH_RATE while growing and by exactly -GROWTH_RATE once shrinking. |
| Targets.CollidesIsDisc | main.py:57-60 | The integer test holds exactly when the distance to the centre is at most the radius in pixels, and that radius is not negative. |
| Targets.LifeClosedForm | main.py:33-48 | After n updates a fresh target has size n and is growing for n < 150. From then on it has size 298 - n and is shrinking. |
| Targets.LifePeak | main.py:42-48 | The size is always below MAX_SIZE. The peak, 149 steps, is reached after exactly 149 updates. |
| Targets.LifeExpiry | main.py:42-48 | From update 1 on, the size is 0 or below exactly from update 298 on. At update 298 it is exactly 0. |
| Targets.InPlayIsReachable | main.py:33-48 | The in-play states are exactly the states a fresh target passes through before its 298th update. |
| Targets.CollidesGrows | main.py:57-60 | A point that hits a disc also hits every larger disc with the same centre. |
| Targets.CollidesAtCentre | main.py:57-60 | The centre is hit exactly when the size is not negative. |
| Targets.CollidesWhenExpired | main.py:57-60 | A target at size 0 or below is hit only at its centre, and only at size exactly 0. |
| Targets.Target.constructor | main.py:33-38 | A new target is at the given centre, with size 0 and growing. |
| Targets.Target.Update | main.py:40-48 | The object's new value is Step of its old value. The centre is a constant field. |
| Lists.DeleteAt | main.py:177 | Deleting index i shortens the list by one, keeps the entries before i and moves the later ones down by one. |
| Lists.IndexOf | main.py:177 | The index returned holds x, and no earlier entry does. |
| Lists.RemoveFirst | main.py:176-182 | `list.remove` fails exactly when x is absent. Otherwise it deletes the first entry equal to x. |
| Lists.DistinctAppend | main.py:164-165 | Appending a new object to a list without duplicates leaves none. |
| Lists.RemoveDistinct | main.py:172-182 | In a list without duplicates, removing the object at i deletes entry i. The result has no duplicates and no longer holds that object. |
| Rules.BeforeQuitPrefix | main.py:156-159 | The events handled are a quit-free prefix of the frame's events. They are followed by a quit unless they are all of them. |
| Rules.SpawnedSound | main.py:161-165 | There is at most one new target per event. Each is in play and inside the `randint` bounds when every timer event's position is. |
| Rules.PressesCount | main.py:167-169 | There is at most one click per event. Some click is counted exactly when some event is a mouse press. |
| Rules.EventsTargets | main.py:156-165 | The event loop appends one fresh target at the end of the list per timer event before the first quit, in order. It leaves the old entries in place. |
| Rules.EventsCounters | main.py:156-169 | The event loop leaves the hit and miss counters unchanged. |
| Rules.EventsClicks | main.py:156-169 | `clicks` grows by the mouse presses before the first quit. `click` is set exactly when there was such a press. `run` is cleared exactly when some event is a quit. |
| Rules.EventsEffect | main.py:156-169 | The whole new state after the event loop is given in terms of the events before the first quit. |
| Rules.EventsSound | main.py:161-165 | The event loop keeps every target in play and in the field when the timer positions lie in the `randint` bounds. |
| Rules.Visit | main.py:173-183 | One visit fails exactly when the updated target is at size 0 or below and is clicked. Otherwise it removes the target at most once, counting a miss exactly when its size is 0 or below and a hit exactly when it is still alive and the click lands on it. |
| Rules.PassFromVisit | main.py:172-183 | The walk from index i is the visit to i followed by the walk from i + 1 over the list that visit leaves. |
| Rules.PassGoesOn | main.py:172-183 | The loop invariant of the walk. A pass whose counts so far are known goes on from i + 1 with the counts of the visit to i added. A ValueError at i is the outcome of the whole pass. |
| Rules.PassFromIsSweep | main.py:172-183 | From index i on, Python's index walk leaves the first i entries in front of what the entry-by-entry rule makes of the rest. |
| Rules.PassIsSweep | main.py:172-183 | The index walk over the whole list equals the entry-by-entry rule, in which the entry after each removed one is passed over. |
| Rules.SweepAccounting | main.py:172-183 | Every removal counts exactly one miss or one hit. The list shrinks by the misses plus the hits. |
| Rules.SweepWithoutClick | main.py:181-183 | Without a mouse press there is no hit and no ValueError. |
| Rules.SweepKeepsOrder | main.py:172-183 | The surviving targets keep their relative order. Each comes from a strictly increasing index of the old list, untouched or updated. |
| Rules.SweepSound | main.py:172-183 | Every target that survives the pass is still in play and in the field. |
| Rules.SweepErrorCause | main.py:176-182 | A ValueError needs a press exactly on the centre of a target that the update brings to size exactly 0. |
| Rules.SweepSkipsNext | main.py:172-183 | The entry right after a removed target is neither updated nor tested. It comes out unchanged, at the front of what remains. |
| Rules.SkippedExpiry | main.py:172-178 | Two targets on their last step with no press: only the first is counted as a miss, and the second stays in the list at size 1. |
| Rules.CentreClickHits | main.py:181-183 | A click on the centre of a target that is still alive after its update removes it as a hit. |
| Rules.FrameAccounting | main.py:149-187 | Over one frame, clicks grow by the presses before the first quit. The list grows by the timer targets and shrinks by one per miss and per hit. Misses and hits never go down. With no press, the hits stay the same. |
| Rules.FrameWithoutClickIsSafe | main.py:167-183 | A frame without a press before its first quit never raises ValueError. |
| Rules.FrameSound | main.py:156-183 | A frame keeps every target in play and in the field. |
| Rules.FrameGameOver | main.py:186-191 | The end screen comes exactly when the misses reach LIVES. Otherwise the top bar shows LIVES - misses lives, between 1 and 3. |
| Rules.QuitStillEndsGame | main.py:156-187 | A frame whose only event is a quit still counts the miss of an expiring target and enters the end screen. |
| Rules.PlayStep | main.py:149-192 | A running session shows what its next frame ends with. It goes on with the later frames exactly when that outcome is the top bar. |
| Rules.PlayEnds | main.py:186-187 | A session shows at most one outcome per frame. Every outcome but the last is the top bar: after the end screen (which never returns, main.py:123-127) or a crash, nothing runs. |
| Rules.PlayShowsLives | main.py:186-191 | Whenever the top bar is drawn, it shows between 1 and 3 lives. |
| Rules.FrameHits | main.py:181-191 | The hits a frame shows are the hits counted so far, which never go down. |
| Rules.PlayHitsFloor | main.py:149-192 | No frame shows fewer hits than the session started with. |
| Rules.PlayHitsGrow | main.py:149-192 | The hits shown never go down from one frame to a later one. |
| Game.Begin | main.py:136-144 | The locals before the loop are an empty list, zero counts and `run` set. |
| Game.AddTarget | main.py:161-165 | Appending a new Target object appends a fresh value at the end and keeps the list free of duplicates. |
| Game.EventPass | main.py:156-169 | The event loop run in place yields exactly the state Rules.Events gives. The old objects stay in front, in order, and every object it adds is new. |
| Game.UpdateTarget | main.py:173-183 | One loop body in place: it updates object i, then deletes it as a miss and/or as a hit. It fails exactly where Rules.Visit fails, and otherwise leaves the values, misses and hits that Visit gives. Only objects of the old list remain. |
| Game.UpdatePass | main.py:172-183 | The target loop in place fails exactly where Rules.PassFrom does. Otherwise it leaves the values and counts that PassFrom gives, using only objects of the old list. |
| Game.RunFrame | main.py:150-191 | One pass of `while run` run in place shows exactly the outcome of Rules.Frame. Unless it crashes, it leaves exactly the state Frame gives. |
| Game.RunGame | main.py:135-192 | `main` run over the given frames shows exactly the outcomes Rules.Play gives. |

## Left out

- Timing and randomness are inputs, not modelled: `clock.tick`, `time.time`, `pygame.time.set_timer` and `random.randint`. Each timer event carries the position drawn for it. The `randint` bounds appear only as the precondition `SpawnsInField` of the soundness lemmas.
- The mouse position is read once per frame (main.py:152). It is an input of the frame.
- Everything pygame draws is left out, since none of it feeds back into the game state: `Target.draw`, `draw`, `draw_top_bar`, `get_middle`, `display.update`, and the window and font setup.
- `format_time` (main.py:72-78) is left out. Its output depends on binary floating-point rounding.
- The speed and accuracy figures (main.py:87, 106, 111) are float divisions for display. They are left out. Accuracy divides by `clicks`, which is 0 when a game ends by three misses without a click. That case would raise ZeroDivisionError inside `end_screen`.
- Sizes are exact multiples of 0.2 px. The IEEE accumulation of 0.2 is not modelled, so a float size that drifts just above or below an integer step is not captured. This abstraction is deliberate.
- LifePeak: holds for sizes counted in exact steps only. In IEEE doubles, adding 0.2 to 0.0 repeatedly gives 29.799999999999926 after 149 updates. That is still below 30 by one more step (29.999999999999925), so the target grows for 150 updates and turns on update 151.
- LifeExpiry: holds for exact steps only. In IEEE doubles the size first drops to 0 or below on update 300, at about -1.28e-15, and is never exactly 0.0.
- SweepErrorCause: the ValueError it describes needs a size of exactly 0. In IEEE doubles no spawned target reaches 0.0, and `collide` is false at a negative size, so in main.py as run on doubles the second `targets.remove` cannot fail for a target the game spawns.
- The blocking wait of `end_screen` (main.py:123-127) becomes the terminal outcome `EndScreen`, and `Play` stops there. So does `quit()`, which ends the process.
- Game.UpdatePass: soundness of the targets (in play, in the field) is not an invariant of the in-place methods. It is proved on values by `Rules.FrameSound`, which holds for the state `RunFrame` leaves.
- Game.UpdateTarget: states that the list it leaves holds only objects of the old list, without duplicates, whose values are those Rules.Visit gives. It does not state as object identity that this list is the old one or the old one with entry i deleted; only the values pin that down.
- A session is a finite sequence of frames. A game that runs forever is covered only frame by frame.
