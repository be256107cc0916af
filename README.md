# Snake game rules and story dialogue

A model of the rules of the "Snake: Reawakening" game in `src/game.py`. The game is a
pygame program whose rules sit inside its render and input loop. This project models three parts:

- **Snake tick** (module `Snake`, class `Snake.Game`). One iteration of the game loop:
  - resolve the pressed direction against the reversal guard;
  - move the head one 10-unit cell;
  - insert the head at the front of the body;
  - on an exact food hit, add a point and draw new food; otherwise pop the tail;
  - test for game over: the head is outside the 720 × 480 window or on the body after its first segment.

  `Game.Valid` is the invariant every tick keeps:
  - the body has `3 + score` segments, starts at the head and stays connected on the 10-unit grid;
  - the neck is one step behind the head in the current direction;
  - the pending key is the current direction or its reverse;
  - the food lies on a cell the food draw can produce.
- **Dialogue typewriter** (module `Typewriter`). This is the overlay shown for each food eaten. Class `Dialogue` holds the index, the
  shown prefix and the finished flag. `ShowDialogue` runs the overlay's loop over a finite run of frames.
  Each frame records whether a key was pressed and whether the 1/30 s cadence elapsed.
- **Story line** (module `Stories`). The line shown for a score is step `score % len(steps)` of the
  story, captioned `'<title>' - <step>`. `OnEatFood` feeds that line to the dialogue.

Inputs that the program gets from the outside world are parameters here:
- the random food draws (`rx`, `ry`, constrained to what `randrange(1, 72)` and `randrange(1, 48)` return);
- the last direction key of a frame (`Option<Direction>`);
- per dialogue frame, "a key was pressed" and "the cadence elapsed".

Details of the code that the model keeps as written:
- The window test is `x > 710` / `y > 470` (`frame - PIX`). On grid cells `Snake.OutOfWindowOnGrid` shows this
  is the same as `x >= 720` / `y >= 480`, and every reachable head is on a grid cell (`Game.Valid`).
- Typing a text of length L finishes on the (L+1)-th cadence step: the L-th step shows the whole text, and only
  the next one sets `finished_typing`. A key press closes the overlay only after that.
- Food is drawn from columns 1..71 and rows 1..47 (`randrange(1, n)`), so row 0 and column 0 never hold food,
  and the draw does not avoid the snake's body.
- The requested direction (`change_to`) persists between ticks. A rejected reversal stays pending, but it can
  never take effect later, because the direction only changes when a new key is pressed.
- Food lying under the body can be eaten on the same tick that ends the game. The dialogue is still shown in
  that tick; `GameOver(ateFood)` records it.
- A story with no steps makes `score % len(steps)` raise `ZeroDivisionError`. The first such call is made before
  the game loop starts (line 171), so the program ends before the first tick. `StoryLine` and `OnEatFood`
  return `None` for that case.

`Snake.EatAheadScenario` works through one case: from the starting position with food one cell ahead of the head,
the first tick eats it, the score becomes 1 and the body grows to `[(110,50), (100,50), (90,50), (80,50)]`.

## Model

| member | source | states |
|---|---|---|
| `Snake.ResolveDirection` | src/game.py:192-200 | the effective direction is the request unless the request is the exact reverse of the current direction, in which case it stays; it is never the reverse of the current one |
| `Snake.Move` | src/game.py:202-210 | the new head is one cell from the old along one axis, and it decreases y exactly for UP, increases y exactly for DOWN, decreases x exactly for LEFT, increases x exactly for RIGHT |
| `Snake.MoveReturns` | src/game.py:192-210 | two moves return to the start exactly when the second reverses the first, so the guard keeps the head off the neck |
| `Snake.MoveKeepsGrid` | src/game.py:202-210 | a move keeps a position on the 10-unit grid |
| `Snake.FoodCell` | src/game.py:77-80 | any pair of draws in the `randrange` ranges gives a grid-aligned food cell with x in 10..710 and y in 10..470 |
| `Snake.FoodCellOnto` | src/game.py:223-226 | every such food cell is produced by some pair of draws |
| `Snake.AdvanceBody` | src/game.py:212-219 | the new body starts with the new head, followed by the whole old body when food is eaten (one longer) or by all but its last segment otherwise (same length) |
| `Snake.AdvanceBodyContiguous` | src/game.py:212-219 | inserting a head next to the old head and popping or keeping the tail keeps the body connected |
| `Snake.OutOfWindowOnGrid` | src/game.py:248-252 | on grid-aligned positions the loop's bounds test holds exactly when the head is outside 0 <= x < 720, 0 <= y < 480 |
| `Snake.CheckGameOver` | src/game.py:247-256 | reports game over exactly when the head is out of the window or equals some segment of `body[1:]` |
| `Snake.Game.constructor` | src/game.py:73-86 | the starting state: head (100, 50), body of three segments to its left, heading RIGHT, score 0, food from the first draws; the invariant holds |
| `Snake.Game.Tick` | src/game.py:192-227 | keeps the invariant; the pressed key becomes the pending request, the direction is resolved against the old one, the head moves one cell and never lands on the old neck, the body is advanced, the score rises by one and the food is redrawn exactly when the new head equals the old food, else both stay; the result is game over exactly when the checks of lines 247-256 fire |
| `Typewriter.Dialogue.constructor` | src/game.py:107-112 | a fresh dialogue shows nothing, has index 0 and is not finished |
| `Typewriter.Dialogue.Step` | src/game.py:132-140 | on an elapsed cadence before finishing, the index grows by one while text remains, else typing finishes; otherwise nothing changes; the shown text is always `text[:index]` |
| `Typewriter.Dialogue.KeyDown` | src/game.py:125-130 | a key press exits exactly when typing has finished, and changes nothing |
| `Typewriter.Revealed` | src/game.py:135-137 | the text revealed after c cadence steps is the prefix of the text of length min(c, len(text)), and it is the whole text exactly when c >= len(text) |
| `Typewriter.ShowDialogue` | src/game.py:107-144 | the overlay closes at the first frame with a key press after more than len(text) cadence steps, showing the whole text; with no such frame it is still open, showing the first min(steps, len) characters |
| `Typewriter.PlaysUnique` | src/game.py:114-140 | the frames determine how the dialogue ends |
| `Stories.Caption` | src/game.py:92 | the caption has length len(title) + len(step) + 5, starts with `'`, holds the title, then `' - `, then the step; title and step can be read back from it |
| `Stories.StoryLine` | src/game.py:88-92 | a line exists exactly when the story has steps (otherwise the program dies on a division by zero); it is the caption of the title with one of the story's steps |
| `Stories.StoryLineAt` | src/game.py:91 | the score q * len(steps) + i shows the caption of step i, so the steps are shown in order and start again after the last |
| `Stories.StoryLinePeriodic` | src/game.py:91 | the line for score + len(steps) is the line for score |
| `Stories.StoryLineCoversSteps` | src/game.py:91 | every step is shown for some score among any len(steps) consecutive scores |
| `Stories.TickWithDialogue` | src/game.py:212-227 | one tick keeps the invariant and changes the pending key, direction, head, body, score and food as `Game.Tick` does (food redrawn only when eaten, else unchanged), eats exactly when the new head equals the old food, and then shows the dialogue for the incremented score (old score + 1); no dialogue without food or when the story has no steps |
| `Stories.OnEatFood` | src/game.py:88-92 | with steps, the dialogue plays the line for the current score; `None` stands for the division by zero that ends the program when there are no steps |

## Left out

- Rendering: the translucent overlay, text box, snake, food and score drawing, the game-over screen, and
  `textwrap.fill(text, 39)`. These are pygame and library calls with float coordinates.
- Event polling and the key map (arrows/WASD, Escape). The model takes the last direction key of a frame as input.
- The window-close event in either loop, which ends the process. Also the 3-second hold and `sys.exit` after game over. The model reports `GameOver` and its callers stop ticking.
- Wall-clock timing (`time.time()`, `clock.tick(60)`, `fps_controller.tick(15)`). Each dialogue frame has a "cadence elapsed" flag instead.
- `random.randrange` and `random.choice`: food draws are parameters, and the story is a parameter.
- Loading the story and background files and their error exits.
- The crash on a story without steps: the model returns `None` and does not model the traceback and the end of the process.
- The endless outer loop is not modelled as a method; `Stories.TickWithDialogue` models one of its iterations. The
  dialogue reads the score after the increment of line 215, and it changes none of the snake's state. The game also
  shows a dialogue once with score 0 before the first tick (line 171); that is `OnEatFood` with score 0.
- The game stops at the first segment of `body[1:]` that equals the head; the model's scan reads the whole body. Both give the same verdict.
