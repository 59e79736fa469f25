/** The gamepad's selection cursor over the board, a row-major grid of
    `rows` × `cols` cards. */
module Cursor {

  /** Where an analog stick axis is, relative to the 0.85 threshold: beyond
      -0.85, within [-0.85, 0.85], or beyond +0.85. */
  datatype AxisSign = Negative | Centred | Positive

  /** The buttons the game reads: A (button 0) and the D-pad (buttons 12 to
      15). A button the pad does not report reads as released. */
  datatype Buttons = Buttons(aButton: bool, dpadLeft: bool, dpadRight: bool, dpadUp: bool, dpadDown: bool)

  /** The snapshot before the first poll: nothing pressed. */
  const Released := Buttons(false, false, false, false, false)

  /** One poll of the pad: the left stick's two axes and the buttons. */
  datatype Sample = Sample(stickX: AxisSign, stickY: AxisSign, buttons: Buttons)

  /** A step of the cursor on the grid. */
  datatype Move = Stay | Left | Right | Up | Down

  /** Whether the step stays on the grid: never across a row edge, never
      above the top row or below the bottom row. */
  predicate CanMove(m: Move, index: nat, rows: nat, cols: nat)
    requires cols > 0
  {
    match m
    case Stay => false
    case Left => index % cols > 0
    case Right => index % cols < cols - 1
    case Up => index / cols > 0
    case Down => index / cols < rows - 1
  }

  /** The index a step leads to. */
  function Target(m: Move, index: nat, cols: nat): int
  {
    match m
    case Stay => index
    case Left => index - 1
    case Right => index + 1
    case Up => index - cols
    case Down => index + cols
  }

  /** The step the vertical stick axis asks for. */
  function VerticalMove(y: AxisSign): Move
  {
    if y == Positive then Down else if y == Negative then Up else Stay
  }

  /** The step the horizontal stick axis asks for. */
  function HorizontalMove(x: AxisSign): Move
  {
    if x == Positive then Right else if x == Negative then Left else Stay
  }

  /** The stick's step: the vertical axis when it can move, otherwise the
      horizontal one when it can, otherwise none. The stick has no memory:
      it steps on every poll while it is held. */
  function StickMove(x: AxisSign, y: AxisSign, index: nat, rows: nat, cols: nat): (m: Move)
    requires cols > 0
  {
    if CanMove(VerticalMove(y), index, rows, cols) then VerticalMove(y)
    else if CanMove(HorizontalMove(x), index, rows, cols) then HorizontalMove(x)
    else Stay
  }

  /** A D-pad direction that is pressed now and was released at the
      previous poll. */
  predicate NewlyPressed(now: bool, before: bool) { now && !before }

  /** The D-pad's step: the first of right, left, down, up that was just
      pressed and can move. */
  function DpadMove(b: Buttons, last: Buttons, index: nat, rows: nat, cols: nat): Move
    requires cols > 0
  {
    if NewlyPressed(b.dpadRight, last.dpadRight) && CanMove(Right, index, rows, cols) then Right
    else if NewlyPressed(b.dpadLeft, last.dpadLeft) && CanMove(Left, index, rows, cols) then Left
    else if NewlyPressed(b.dpadDown, last.dpadDown) && CanMove(Down, index, rows, cols) then Down
    else if NewlyPressed(b.dpadUp, last.dpadUp) && CanMove(Up, index, rows, cols) then Up
    else Stay
  }

  /** The step one poll makes: the D-pad's if it has one, else the stick's. */
  function ChosenMove(sample: Sample, last: Buttons, index: nat, rows: nat, cols: nat): Move
    requires cols > 0
  {
    var pad := DpadMove(sample.buttons, last, index, rows, cols);
    if pad != Stay then pad else StickMove(sample.stickX, sample.stickY, index, rows, cols)
  }

  /** Two cells of the grid side by side in one row, or one above the other
      in one column. */
  predicate Adjacent(a: nat, b: nat, cols: nat)
    requires cols > 0
  {
    (a / cols == b / cols && (a % cols == b % cols + 1 || b % cols == a % cols + 1))
    || (a % cols == b % cols && (a / cols == b / cols + 1 || b / cols == a / cols + 1))
  }

  /** The cursor after one poll: the chosen step, kept only when it lands on
      the board. From a cell on the board it stays on the board and either
      stays put or moves to an adjacent cell. */
  function NextCursor(sample: Sample, last: Buttons, index: nat, rows: nat, cols: nat): (r: nat)
    requires cols > 0
    ensures index < rows * cols ==> r < rows * cols
    ensures index < rows * cols ==> r == index || Adjacent(index, r, cols)
  {
    var m := ChosenMove(sample, last, index, rows, cols);
    var t := Target(m, index, cols);
    StepLands(m, index, rows, cols);
    if 0 <= t < rows * cols then t else index
  }

  /** The index the poll asks for, before the board-range check: the
      stick's step, horizontal then vertical, each overriding the previous;
      then a newly pressed D-pad direction overriding both. */
  method ChooseIndex(sample: Sample, last: Buttons, index: nat, rows: nat, cols: nat) returns (newIndex: int)
    requires cols > 0
    ensures newIndex == Target(ChosenMove(sample, last, index, rows, cols), index, cols)
  {
    var b := sample.buttons;
    var currentRow := index / cols;
    var currentCol := index % cols;
    newIndex := index;
    if sample.stickX != Centred {
      if sample.stickX == Positive && currentCol < cols - 1 {
        newIndex := index + 1;
      } else if sample.stickX == Negative && currentCol > 0 {
        newIndex := index - 1;
      }
    }
    if sample.stickY != Centred {
      if sample.stickY == Positive && currentRow < rows - 1 {
        newIndex := index + cols;
      } else if sample.stickY == Negative && currentRow > 0 {
        newIndex := index - cols;
      }
    }
    assert newIndex == Target(StickMove(sample.stickX, sample.stickY, index, rows, cols), index, cols);
    if b.dpadRight && currentCol < cols - 1 && !last.dpadRight {
      newIndex := index + 1;
    } else if b.dpadLeft && currentCol > 0 && !last.dpadLeft {
      newIndex := index - 1;
    } else if b.dpadDown && currentRow < rows - 1 && !last.dpadDown {
      newIndex := index + cols;
    } else if b.dpadUp && currentRow > 0 && !last.dpadUp {
      newIndex := index - cols;
    }
  }

  // ----- grid arithmetic -----

  /** Multiplying by a natural number keeps the order. */
  lemma MulMono(a: nat, b: nat, c: nat)
    ensures a <= b ==> a * c <= b * c
  {
    if a <= b {
      assert b * c == a * c + (b - a) * c;
    }
  }

  /** Division by `cols` is determined by the quotient-remainder equation. */
  lemma DivModUnique(n: nat, cols: nat, q: nat, r: nat)
    requires 0 <= r < cols && n == q * cols + r
    ensures n / cols == q && n % cols == r
  {
    var q', r' := n / cols, n % cols;
    assert n == q' * cols + r';
    MulMono(q' + 1, q, cols);
    MulMono(q + 1, q', cols);
    assert (q' + 1) * cols == q' * cols + cols;
    assert (q + 1) * cols == q * cols + cols;
  }

  /** A cell of the board lies in one of its rows. */
  lemma RowOnBoard(index: nat, rows: nat, cols: nat)
    requires cols > 0 && index < rows * cols
    ensures index / cols < rows
  {
    assert index == (index / cols) * cols + index % cols;
    MulMono(rows, index / cols, cols);
  }

  lemma StepRight(index: nat, rows: nat, cols: nat)
    requires cols > 0 && index < rows * cols && index % cols < cols - 1
    ensures index + 1 < rows * cols
    ensures (index + 1) / cols == index / cols && (index + 1) % cols == index % cols + 1
  {
    var q, r := index / cols, index % cols;
    assert index == q * cols + r;
    RowOnBoard(index, rows, cols);
    DivModUnique(index + 1, cols, q, r + 1);
    MulMono(q + 1, rows, cols);
    assert (q + 1) * cols == q * cols + cols;
  }

  lemma StepLeft(index: nat, cols: nat)
    requires cols > 0 && index % cols > 0
    ensures index >= 1
    ensures (index - 1) / cols == index / cols && (index - 1) % cols + 1 == index % cols
  {
    var q, r := index / cols, index % cols;
    assert index == q * cols + r;
    DivModUnique(index - 1, cols, q, r - 1);
  }

  lemma StepDown(index: nat, rows: nat, cols: nat)
    requires cols > 0 && index < rows * cols && index / cols < rows - 1
    ensures index + cols < rows * cols
    ensures (index + cols) / cols == index / cols + 1 && (index + cols) % cols == index % cols
  {
    var q, r := index / cols, index % cols;
    assert index == q * cols + r;
    assert (q + 1) * cols == q * cols + cols;
    DivModUnique(index + cols, cols, q + 1, r);
    MulMono(q + 2, rows, cols);
    assert (q + 2) * cols == q * cols + 2 * cols;
  }

  lemma StepUp(index: nat, cols: nat)
    requires cols > 0 && index / cols > 0
    ensures index >= cols
    ensures (index - cols) / cols + 1 == index / cols && (index - cols) % cols == index % cols
  {
    var q, r := index / cols, index % cols;
    assert index == q * cols + r;
    MulMono(1, q, cols);
    assert (q - 1) * cols == q * cols - cols;
    DivModUnique(index - cols, cols, q - 1, r);
  }

  /** Every step the cursor may take leads to an adjacent cell of the board;
      so the board-range check the game applies afterwards never rejects a
      step that starts on the board. */
  lemma StepLands(m: Move, index: nat, rows: nat, cols: nat)
    requires cols > 0
    ensures index < rows * cols && CanMove(m, index, rows, cols) ==>
      0 <= Target(m, index, cols) < rows * cols && Adjacent(index, Target(m, index, cols), cols)
  {
    if index < rows * cols && CanMove(m, index, rows, cols) {
      match m {
        case Left => StepLeft(index, cols);
        case Right => StepRight(index, rows, cols);
        case Up => StepUp(index, cols);
        case Down => StepDown(index, rows, cols);
      }
    }
  }

  /** Buttons held since the previous poll do not move the cursor again:
      with the stick centred and no D-pad direction newly pressed, the
      cursor stays where it is. */
  lemma HeldButtonsDoNotRepeat(sample: Sample, last: Buttons, index: nat, rows: nat, cols: nat)
    requires cols > 0
    requires sample.stickX == Centred && sample.stickY == Centred
    requires !NewlyPressed(sample.buttons.dpadLeft, last.dpadLeft) && !NewlyPressed(sample.buttons.dpadRight, last.dpadRight)
    requires !NewlyPressed(sample.buttons.dpadUp, last.dpadUp) && !NewlyPressed(sample.buttons.dpadDown, last.dpadDown)
    ensures NextCursor(sample, last, index, rows, cols) == index
  {
  }

  /** A D-pad press that can move the cursor overrides the stick: whichever
      direction the D-pad steps in, the cursor takes that step, whatever the
      stick says. */
  lemma DpadOverridesStick(sample: Sample, last: Buttons, index: nat, rows: nat, cols: nat)
    requires cols > 0 && index < rows * cols
    requires DpadMove(sample.buttons, last, index, rows, cols) != Stay
    ensures NextCursor(sample, last, index, rows, cols) == Target(DpadMove(sample.buttons, last, index, rows, cols), index, cols)
  {
    var m := DpadMove(sample.buttons, last, index, rows, cols);
    assert CanMove(m, index, rows, cols);
    StepLands(m, index, rows, cols);
  }

  /** With no D-pad step, the vertical stick axis overrides the horizontal:
      a vertical step that can move is taken, up or down; only when it
      cannot is the horizontal step taken, left or right. */
  lemma StickVerticalOverridesHorizontal(sample: Sample, last: Buttons, index: nat, rows: nat, cols: nat)
    requires cols > 0 && index < rows * cols
    requires DpadMove(sample.buttons, last, index, rows, cols) == Stay
    ensures CanMove(VerticalMove(sample.stickY), index, rows, cols) ==>
      NextCursor(sample, last, index, rows, cols) == Target(VerticalMove(sample.stickY), index, cols)
    ensures !CanMove(VerticalMove(sample.stickY), index, rows, cols) && CanMove(HorizontalMove(sample.stickX), index, rows, cols) ==>
      NextCursor(sample, last, index, rows, cols) == Target(HorizontalMove(sample.stickX), index, cols)
  {
    StepLands(VerticalMove(sample.stickY), index, rows, cols);
    StepLands(HorizontalMove(sample.stickX), index, rows, cols);
  }
}
