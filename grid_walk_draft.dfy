/** The first draft of the grid walk: one command holds a turn and a number
    of blocks, and the readers take a turn letter or a count off the front
    of the text. Directions and turns are those of the final version. */
module GridWalkDraft {
  import opened Decimal
  import G = GridWalk

  const I32_LIMIT: int := 0x8000_0000
  const U32_LIMIT: int := 0x1_0000_0000

  /** Rust's `as i32` on a `u32`: the same bits read as two's complement,
      so counts from 2^31 on become negative. */
  function AsI32(n: nat): (r: int)
    requires n <= U32_MAX
    ensures -I32_LIMIT <= r < I32_LIMIT
    ensures (n - r) % U32_LIMIT == 0
  {
    if n < I32_LIMIT then n else n - U32_LIMIT
  }

  /** A turn and the blocks to walk after it; the count is a `u32`. */
  datatype Command = Command(turn: G.Turn, steps: nat)

  /** The coordinates are Rust `i32`s; they are unbounded here. */
  datatype Position = Position(x: int, y: int, facing: G.Dir)
  {
    /** `Position::update`: turns first, then walks the count of blocks,
        cast to `i32`, in the new direction. */
    function Update(cmd: Command): (r: Position)
      requires cmd.steps <= U32_MAX
      ensures r.facing == facing.Turned(cmd.turn)
      ensures cmd.steps < I32_LIMIT ==>
        r.x == x + cmd.steps * r.facing.Dx() && r.y == y + cmd.steps * r.facing.Dy()
      ensures cmd.steps == 0 ==> r.x == x && r.y == y
    {
      var dir := facing.Turned(cmd.turn);
      var n := AsI32(cmd.steps);
      Position(x + dir.Dx() * n, y + dir.Dy() * n, dir)
    }
  }

  /** The draft's command is the final version's turn followed by that many
      steps. */
  lemma {:induction false} UpdateIsTurnThenSteps(p: Position, cmd: Command)
    requires cmd.steps < I32_LIMIT
    ensures var q := G.Walk(G.Position(p.x, p.y, p.facing),
                            [G.CmdTurn(cmd.turn)] + G.Repeat(G.CmdStep, cmd.steps));
      q.x == p.Update(cmd).x && q.y == p.Update(cmd).y && q.facing == p.Update(cmd).facing
  {
    var start := G.Position(p.x, p.y, p.facing);
    G.WalkAppend(start, [G.CmdTurn(cmd.turn)], G.Repeat(G.CmdStep, cmd.steps));
    assert [G.CmdTurn(cmd.turn)][..0] == [];
    assert G.Walk(start, [G.CmdTurn(cmd.turn)]) == start.UpdateTurn(cmd.turn);
    G.WalkSteps(start.UpdateTurn(cmd.turn), cmd.steps);
  }

  /** A count of 2^31 or more is cast to a negative `i32`: the walk goes
      the other way. */
  lemma UpdateWrapsLargeCounts()
    ensures Position(0, 0, G.N).Update(Command(G.Right, 0x8000_0001)) ==
      Position(-0x7FFF_FFFF, 0, G.E)
  {
    G.TurnTable();
  }

  /** The update test: L5 from the origin reaches (-5, 0) facing west. */
  lemma UpdateExample()
    ensures Position(0, 0, G.N).Update(Command(G.Left, 5)) == Position(-5, 0, G.W)
  {
    G.TurnTable();
  }

  // ---------------------------------------------------------------------
  // Readers

  predicate IsSeparator(c: char) {
    c == ' ' || c == ','
  }

  predicate AllSeparators(s: string) {
    forall i :: 0 <= i < |s| ==> IsSeparator(s[i])
  }

  /** `read_turn`: skips spaces and commas, then reads 'L' or 'R'; any
      other char, or the end of the text, gives `None`. */
  function ReadTurn(s: string): (r: Option<G.Turn>)
    ensures r.Some? ==>
      exists k :: 0 <= k < |s| && AllSeparators(s[..k]) && [s[k]] == G.Letter(r.value)
    ensures AllSeparators(s) ==> r.None?
  {
    if s == [] then None
    else if IsSeparator(s[0]) then
      var r := ReadTurn(s[1..]);
      if r.Some? then
        var k :| 0 <= k < |s| - 1 && AllSeparators(s[1..][..k]) && [s[1..][k]] == G.Letter(r.value);
        assert s[..k + 1] == [s[0]] + s[1..][..k];
        r
      else
        assert AllSeparators(s) ==> AllSeparators(s[1..]) by {
          assert forall i :: 0 <= i < |s| - 1 ==> s[1..][i] == s[i + 1];
        }
        r
    else if s[0] == 'L' then
      assert s[..0] == [];
      Some(G.Left)
    else if s[0] == 'R' then
      assert s[..0] == [];
      Some(G.Right)
    else None
  }

  /** A turn letter after any run of separators is read back. */
  lemma {:induction false} ReadTurnAfterSeparators(seps: string, t: G.Turn, rest: string)
    requires AllSeparators(seps)
    ensures ReadTurn(seps + G.Letter(t) + rest) == Some(t)
  {
    if seps == [] {
      assert seps + G.Letter(t) + rest == G.Letter(t) + rest;
    } else {
      assert (seps + G.Letter(t) + rest)[1..] == seps[1..] + G.Letter(t) + rest;
      assert AllSeparators(seps[1..]) by {
        assert forall i :: 0 <= i < |seps| - 1 ==> seps[1..][i] == seps[i + 1];
      }
      ReadTurnAfterSeparators(seps[1..], t, rest);
    }
  }

  /** The turn tests. */
  lemma ReadTurnExamples()
    ensures ReadTurn("L") == Some(G.Left) && ReadTurn("R") == Some(G.Right)
    ensures ReadTurn("   R") == Some(G.Right) && ReadTurn(",  R") == Some(G.Right)
    ensures ReadTurn("") == None
  {
    ReadTurnAfterSpaces();
    ReadTurnAfterComma();
  }

  lemma ReadTurnAfterSpaces()
    ensures ReadTurn("   R") == Some(G.Right)
  {
    ReadTurnAfterSeparators("   ", G.Right, []);
    assert "   " + G.Letter(G.Right) + [] == "   R";
  }

  lemma ReadTurnAfterComma()
    ensures ReadTurn(",  R") == Some(G.Right)
  {
    ReadTurnAfterSeparators(",  ", G.Right, []);
    assert ",  " + G.Letter(G.Right) + [] == ",  R";
  }

  /** `read_steps`: the leading run of digits as a `u32`; an empty run, or
      one whose value does not fit, gives `None`. */
  function ReadSteps(s: string): (r: Option<nat>)
    ensures r.Some? <==> G.DigitRun(s) > 0 && Value(s[..G.DigitRun(s)]) <= U32_MAX
    ensures r.Some? ==> r.value == Value(s[..G.DigitRun(s)])
  {
    ParseU32(s[..G.DigitRun(s)])
  }

  /** A count printed in decimal and followed by anything else than a
      digit is read back. */
  lemma ReadStepsShow(n: nat, rest: string)
    requires n <= U32_MAX && (rest == [] || !IsDigit(rest[0]))
    ensures ReadSteps(Show(n) + rest) == Some(n)
  {
    G.DigitRunOf(Show(n), rest);
    assert (Show(n) + rest)[..|Show(n)|] == Show(n);
    ParseShowRoundTrip(n);
  }

  /** A count too large for a `u32` is rejected. */
  lemma ReadStepsOverflow(n: nat, rest: string)
    requires n > U32_MAX && (rest == [] || !IsDigit(rest[0]))
    ensures ReadSteps(Show(n) + rest) == None
  {
    G.DigitRunOf(Show(n), rest);
    assert (Show(n) + rest)[..|Show(n)|] == Show(n);
    ParseRejectsOverflow(n);
  }

  lemma ShowExample()
    ensures Show(1234) == "1234"
  {
    assert Show(1) == "1";
    assert Show(12) == Show(1) + [DigitChar(2)] == "12";
    assert Show(123) == Show(12) + [DigitChar(3)] == "123";
    assert Show(1234) == Show(123) + [DigitChar(4)];
  }

  /** The count tests: "1234" and "1234, L1233" both read 1234. */
  lemma ReadStepsExamples()
    ensures ReadSteps("1234") == Some(1234)
    ensures ReadSteps("1234, L1233") == Some(1234)
  {
    ReadStepsAlone();
    ReadStepsBeforeMore();
  }

  lemma ReadStepsAlone()
    ensures ReadSteps("1234") == Some(1234)
  {
    ShowExample();
    ReadStepsShow(1234, []);
    assert "1234" + [] == "1234";
  }

  lemma ReadStepsBeforeMore()
    ensures ReadSteps("1234, L1233") == Some(1234)
  {
    ShowExample();
    ReadStepsShow(1234, ", L1233");
    assert "1234" + ", L1233" == "1234, L1233";
  }
}
