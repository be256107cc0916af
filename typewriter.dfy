/**
  The dialogue overlay shown when food is eaten: a typewriter that reveals
  one more character of a fixed text on each cadence step, marks itself
  finished on the first cadence step after the whole text is shown, and
  lets a key press close it only once it is finished. The wall clock is
  replaced by a "cadence elapsed" flag per frame and event polling by a
  "key pressed" flag per frame.
 */
module Typewriter {

  class Dialogue {
    const text: string
    var index: nat
    var displayed: string
    var finished: bool

    /** The shown text is always the first `index` characters, and typing
        only finishes once all of them are shown. */
    ghost predicate Valid()
      reads this
    {
      index <= |text| && displayed == text[..index] && (finished ==> index == |text|)
    }

    constructor (text: string)
      ensures Valid()
      ensures this.text == text && index == 0 && displayed == "" && !finished
    {
      this.text := text;
      index := 0;
      displayed := "";
      finished := false;
    }

    /** The typing animation of one frame; `cadenceElapsed` stands for more
        than 1/30 s having passed since the last character appeared. */
    method Step(cadenceElapsed: bool)
      requires Valid()
      modifies this
      ensures Valid()
      ensures if !old(finished) && cadenceElapsed then
                if old(index) < |text| then index == old(index) + 1 && !finished
                else index == old(index) && finished
              else index == old(index) && finished == old(finished)
    {
      if !finished && cadenceElapsed {
        if index < |text| {
          index := index + 1;
          displayed := text[..index];
        } else {
          finished := true;
        }
      }
    }

    /** A key press closes the dialogue exactly when typing has finished;
        otherwise it is ignored and nothing changes. */
    method KeyDown() returns (exit: bool)
      requires Valid()
      ensures exit <==> finished
    {
      exit := finished;
    }
  }

  /** What happens during one frame of the dialogue loop. */
  datatype Frame = Frame(keyDown: bool, cadence: bool)

  /** How the dialogue loop ends on a finite run of frames: dismissed at a
      frame, or still showing when the frames run out. */
  datatype Outcome = Dismissed(frame: nat, shown: string) | Showing(shown: string)

  function Min(a: int, b: int): int
  {
    if a <= b then a else b
  }

  /** The number of frames in which the cadence elapsed. */
  function Cadences(frames: seq<Frame>): nat
  {
    if frames == [] then 0
    else Cadences(frames[..|frames| - 1]) + (if frames[|frames| - 1].cadence then 1 else 0)
  }

  /** The text shown after `c` cadence steps. */
  function Revealed(text: string, c: nat): (r: string)
    ensures |r| == Min(c, |text|) && r <= text
    ensures r == text <==> c >= |text|
  {
    text[..Min(c, |text|)]
  }

  /** A key press in frame `k` closes the dialogue: typing finished in an
      earlier frame, which takes one cadence step more than the text has
      characters. */
  predicate DismissibleAt(text: string, frames: seq<Frame>, k: nat)
    requires k < |frames|
  {
    frames[k].keyDown && Cadences(frames[..k]) > |text|
  }

  /** `o` is how the dialogue loop for `text` ends on `frames`: at the first
      frame where it can be dismissed, showing the whole text, or, if there
      is none, still showing what the cadence steps revealed. */
  ghost predicate Plays(text: string, frames: seq<Frame>, o: Outcome)
  {
    (o.Dismissed? ==> o.frame < |frames| && DismissibleAt(text, frames, o.frame) && o.shown == text) &&
    (forall k :: 0 <= k < |frames| && (o.Showing? || k < o.frame) ==> !DismissibleAt(text, frames, k)) &&
    (o.Showing? ==> o.shown == Revealed(text, Cadences(frames)))
  }

  /** `Plays` determines the outcome. */
  lemma PlaysUnique(text: string, frames: seq<Frame>, o1: Outcome, o2: Outcome)
    requires Plays(text, frames, o1) && Plays(text, frames, o2)
    ensures o1 == o2
  {
  }

  /** The dialogue loop: each frame first handles the key press, then runs
      the typing animation. */
  method ShowDialogue(text: string, frames: seq<Frame>) returns (o: Outcome)
    ensures Plays(text, frames, o)
  {
    var d := new Dialogue(text);
    var k := 0;
    while k < |frames|
      invariant 0 <= k <= |frames|
      invariant d.Valid() && d.text == text
      invariant d.index == Min(Cadences(frames[..k]), |text|)
      invariant d.finished <==> Cadences(frames[..k]) > |text|
      invariant forall j :: 0 <= j < k ==> !DismissibleAt(text, frames, j)
    {
      if frames[k].keyDown {
        var exit := d.KeyDown();
        if exit {
          return Dismissed(k, d.displayed);
        }
      }
      d.Step(frames[k].cadence);
      assert frames[..k + 1][..k] == frames[..k];
      k := k + 1;
    }
    assert frames[..k] == frames;
    o := Showing(d.displayed);
  }
}
