/** The keypad walk: a finger starts on the middle key of a 3x3 keypad
    numbered 1 to 9 row by row, and moves Up, Down, Left or Right one key
    at a time; a move off the edge of the pad is ignored. */
module Keypad {

  import opened Decimal

  /** A position (column, row); both are `u8` in the source. */
  type State = (nat, nat)

  /** Values of a Rust `u8`. */
  predicate IsU8(x: nat) {
    x < 256
  }

  /** The `i8` a `u8` is reinterpreted as by `x as i8`. */
  function AsI8(x: nat): (v: int)
    requires IsU8(x)
    ensures -128 <= v < 128 && (v == x || v == x - 256)
  {
    if x < 128 then x else x - 256
  }

  /** `sub1`: one less, but not below 0. The subtraction is done on the
      byte read as an `i8`, so 128, which reads as -128, overflows and
      panics, and every byte above it reads as negative and gives 0. */
  function Sub1(x: nat): (r: nat)
    requires IsU8(x) && x != 128
    ensures x <= 127 ==> r == if x == 0 then 0 else x - 1
    ensures x > 128 ==> r == 0
  {
    var v := AsI8(x) - 1;
    if v < 0 then 0 else v
  }

  /** `add1`: one more, but not above 2. The `u8` addition overflows, and
      panics, at 255. */
  function Add1(x: nat): (r: nat)
    requires IsU8(x) && x != 255
    ensures r <= 2 && (x < 2 ==> r == x + 1) && (x >= 2 ==> r == 2)
  {
    if 2 <= x + 1 then 2 else x + 1
  }

  /** A position on the pad. */
  predicate OnPad(s: State) {
    s.0 <= 2 && s.1 <= 2
  }

  /** On the pad, Sub1 and Add1 undo each other away from the edge they
      clamp at, and both stay on the pad. */
  lemma ClampsInverse(x: nat)
    requires x <= 2
    ensures Sub1(x) <= 2 && Add1(x) <= 2
    ensures x < 2 ==> Sub1(Add1(x)) == x
    ensures x > 0 ==> Add1(Sub1(x)) == x
    ensures Sub1(x) == 0 <==> x <= 1
    ensures Add1(x) == 2 <==> x >= 1
  {
  }

  /** One move: 'U' and 'D' change the row, 'L' and 'R' the column; any
      other char is `panic!("Unknown character")`, here `None`. */
  function Step(s: State, c: char): (r: Option<State>)
    requires OnPad(s)
    ensures r.Some? <==> c in "UDLR"
    ensures r.Some? ==> OnPad(r.value)
    ensures r.Some? && (c == 'U' || c == 'D') ==> r.value.0 == s.0
    ensures r.Some? && (c == 'L' || c == 'R') ==> r.value.1 == s.1
  {
    match c
    case 'U' => Some((s.0, Sub1(s.1)))
    case 'D' => Some((s.0, Add1(s.1)))
    case 'L' => Some((Sub1(s.0), s.1))
    case 'R' => Some((Add1(s.0), s.1))
    case _ => None
  }

  /** The moves applied in order from a start; `None` if one of them is
      not a move. */
  function Walk(start: State, moves: string): (r: Option<State>)
    requires OnPad(start)
    ensures r.Some? ==> OnPad(r.value)
  {
    if moves == [] then Some(start)
    else match Walk(start, moves[..|moves| - 1])
      case None => None
      case Some(s) => if OnPad(s) then Step(s, moves[|moves| - 1]) else None
  }

  /** Every walk of valid moves stays on the pad, and a walk fails exactly
      when some char is not a move. */
  lemma {:induction false} WalkOnPad(start: State, moves: string)
    requires OnPad(start)
    ensures Walk(start, moves).Some? ==> OnPad(Walk(start, moves).value)
    ensures Walk(start, moves).Some? <==> forall i :: 0 <= i < |moves| ==> moves[i] in "UDLR"
  {
    if moves != [] {
      var init := moves[..|moves| - 1];
      WalkOnPad(start, init);
      assert forall i :: 0 <= i < |init| ==> init[i] == moves[i];
    }
  }

  /** The key under a position: `x + 3 * y + 1`. */
  function Digit(s: State): (d: nat)
    requires OnPad(s)
    ensures 1 <= d <= 9
  {
    s.0 + s.1 * 3 + 1
  }

  /** The key numbers the positions one to one: row by row, left to right. */
  lemma DigitPosition(s: State)
    requires OnPad(s)
    ensures s.0 == (Digit(s) - 1) % 3 && s.1 == (Digit(s) - 1) / 3
  {
  }

  /** `decode`: walks "ULL" from the middle key, whatever text it is given,
      and yields the final position and its key. Each pass of the loop is
      the `match` of Step; the moves of "ULL" never reach its panic. */
  method Decode(s: string) returns (state: State, digit: nat)
    ensures Walk((1, 1), "ULL") == Some(state)
    ensures state == (0, 0) && digit == 1
  {
    state := (1, 1);
    var moves := "ULL";
    for k := 0 to |moves|
      invariant OnPad(state)
      invariant Walk((1, 1), moves[..k]) == Some(state)
    {
      assert moves[..k + 1][..k] == moves[..k];
      assert moves[k] == 'U' || moves[k] == 'L';
      state := Step(state, moves[k]).value;
    }
    assert moves[..|moves|] == moves;
    digit := Digit(state);
  }
}
