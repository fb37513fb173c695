/** The input layer of app.js: swipe gestures and key presses are classified
    into the two commands of the card controller. */
module Input {

  /** `nextTicket`, `flipCard`, or nothing. */
  datatype Command = Advance | Flip | Ignore

  /** Horizontal distance, in screen pixels, a touch must travel to count as a
      swipe. */
  const SwipeThreshold: int := 50

  /** `handleSwipe`: with `diff = startX - endX`, a move of more than the
      threshold to the left advances, one of more than the threshold to the
      right flips, and anything shorter is ignored. */
  function ClassifySwipe(startX: int, endX: int): (c: Command)
    ensures c == Advance <==> startX - endX > SwipeThreshold
    ensures c == Flip <==> endX - startX > SwipeThreshold
    ensures c == Ignore <==> -SwipeThreshold <= startX - endX <= SwipeThreshold
  {
    var diff := startX - endX;
    var magnitude := if diff < 0 then -diff else diff;
    if magnitude > SwipeThreshold then
      if diff > 0 then Advance else Flip
    else Ignore
  }

  /** The keydown handler: ArrowRight and space advance, ArrowLeft and Enter
      flip, every other key is ignored. */
  function ClassifyKey(key: string): (c: Command)
    ensures c == Advance <==> key == "ArrowRight" || key == " "
    ensures c == Flip <==> key == "ArrowLeft" || key == "Enter"
  {
    if key == "ArrowRight" || key == " " then Advance
    else if key == "ArrowLeft" || key == "Enter" then Flip
    else Ignore
  }

  /** The handler suppresses the browser's default action (scrolling, button
      activation) exactly for the keys it acts on. */
  function PreventsDefault(key: string): (b: bool)
    ensures b <==> ClassifyKey(key) != Ignore
  {
    key == "ArrowRight" || key == " " || key == "ArrowLeft" || key == "Enter"
  }
}
