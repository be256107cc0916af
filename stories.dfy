/**
  The story lines shown when food is eaten: the step indexed by the score,
  modulo the number of steps, captioned with the story's title.
 */
module Stories {
  import opened Wrappers
  import Typewriter
  import Snake

  /** A story: a title and its ordered steps. */
  datatype Story = Story(title: string, steps: seq<string>)

  /** The caption `'<title>' - <step>`; title and step can be read back
      from it. */
  function Caption(title: string, step: string): (r: string)
    ensures |r| == |title| + |step| + 5
    ensures r[0] == '\'' && r[|title| + 1..|title| + 5] == "' - "
    ensures r[1..|title| + 1] == title && r[|title| + 5..] == step
  {
    "'" + title + "' - " + step
  }

  /** The line for a score; `None` stands for the division by zero that
      ends the program when the story has no steps. */
  function StoryLine(story: Story, score: nat): (r: Option<string>)
    ensures r.Some? <==> |story.steps| > 0
    ensures r.Some? ==> |r.value| >= |story.title| + 5
    ensures r.Some? ==> r.value[|story.title| + 5..] in story.steps
    ensures r.Some? ==> r.value == Caption(story.title, r.value[|story.title| + 5..])
  {
    if |story.steps| == 0 then None
    else Some(Caption(story.title, story.steps[score % |story.steps|]))
  }

  /** Euclidean division has a unique remainder. */
  lemma ModUnique(n: int, q: int, r: int)
    requires n > 0 && 0 <= r < n
    ensures (n * q + r) % n == r
  {
    var x := n * q + r;
    var k := q - x / n;
    assert n * k == x % n - r;
  }

  /** The lines repeat with the number of steps as period. */
  lemma StoryLinePeriodic(story: Story, score: nat)
    ensures StoryLine(story, score + |story.steps|) == StoryLine(story, score)
  {
    var n := |story.steps|;
    if n > 0 {
      var q, r := score / n, score % n;
      assert score + n == n * (q + 1) + r;
      ModUnique(n, q + 1, r);
    }
  }

  /** The score `q * len(steps) + i` shows step `i`: the steps are shown in
      order, starting again from the first after the last. */
  lemma StoryLineAt(story: Story, q: nat, i: nat)
    requires i < |story.steps|
    ensures StoryLine(story, q * |story.steps| + i) == Some(Caption(story.title, story.steps[i]))
  {
    ModUnique(|story.steps|, q, i);
  }

  /** Any run of as many consecutive scores as there are steps shows every
      step. */
  lemma StoryLineCoversSteps(story: Story, from: nat, i: nat)
    requires i < |story.steps|
    ensures exists k :: from <= k < from + |story.steps| &&
                        StoryLine(story, k) == Some(Caption(story.title, story.steps[i]))
  {
    var n := |story.steps|;
    var q, r := from / n, from % n;
    var k: nat;
    if r <= i {
      k := from + (i - r);
      assert k == n * q + i;
      ModUnique(n, q, i);
    } else {
      k := from + (n - r + i);
      assert k == n * (q + 1) + i;
      ModUnique(n, q + 1, i);
    }
    assert StoryLine(story, k) == Some(Caption(story.title, story.steps[i]));
  }

  /** What eating food does besides scoring: show the line for the current
      score in the dialogue overlay. `None` stands for the division by zero
      that ends the program when the story has no steps. */
  method OnEatFood(story: Story, score: nat, frames: seq<Typewriter.Frame>)
    returns (o: Option<Typewriter.Outcome>)
    ensures o.Some? <==> |story.steps| > 0
    ensures o.Some? ==> Typewriter.Plays(StoryLine(story, score).value, frames, o.value)
  {
    var line := StoryLine(story, score);
    if line.None? {
      return None;
    }
    var shown := Typewriter.ShowDialogue(line.value, frames);
    o := Some(shown);
  }

  /** One iteration of the game loop with its dialogue. The line is chosen
      inside the tick, after the score has been incremented, so the k-th
      food eaten shows the line for score k. */
  method TickWithDialogue(g: Snake.Game, story: Story, key: Option<Snake.Direction>,
                          rx: int, ry: int, frames: seq<Typewriter.Frame>)
    returns (r: Snake.TickResult, ate: bool, o: Option<Typewriter.Outcome>)
    requires g.Valid() && Snake.FoodDraw(rx, ry)
    modifies g
    ensures g.Valid()
    ensures g.changeTo == (if key.Some? then key.value else old(g.changeTo))
    ensures g.direction == Snake.ResolveDirection(old(g.direction), g.changeTo)
    ensures g.head == Snake.Move(old(g.head), g.direction)
    ensures ate <==> g.head == old(g.food)
    ensures g.body == Snake.AdvanceBody(old(g.body), g.head, ate)
    ensures g.food == (if ate then Snake.FoodCell(rx, ry) else old(g.food))
    ensures g.score == old(g.score) + (if ate then 1 else 0)
    ensures r == if Snake.GameOverAt(g.head, g.body) then Snake.GameOver(ate)
                 else if ate then Snake.FoodEaten
                 else Snake.Continue
    ensures o.Some? <==> ate && |story.steps| > 0
    ensures o.Some? ==> Typewriter.Plays(StoryLine(story, old(g.score) + 1).value, frames, o.value)
  {
    var food := g.food;
    r := g.Tick(key, rx, ry);
    ate := g.head == food;
    o := None;
    if ate {
      o := OnEatFood(story, g.score, frames);
    }
  }
}
