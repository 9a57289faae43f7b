/** A walk on the city grid: a position facing one of the four compass
    directions follows commands that turn it left or right or move it one
    block forward. The commands are read from text such as "L2, R1": a turn
    token, then a count of blocks. */
module GridWalk {
  import opened Decimal

  // ---------------------------------------------------------------------
  // Directions and turns

  /** Rust's `%` on integers: the remainder of the division that truncates
      toward zero, so it takes the sign of the dividend. */
  function RustRem(a: int, m: int): (r: int)
    requires m > 0
    ensures a >= 0 ==> r == a % m
    ensures a <= 0 ==> r == -((-a) % m)
  {
    if a >= 0 then a % m else -((-a) % m)
  }

  datatype Turn = Left | Right
  {
    /** A quarter turn counterclockwise or clockwise. */
    function Delta(): (t: int)
      ensures t == -1 || t == 1
    {
      match this
      case Left => -1
      case Right => 1
    }
  }

  datatype Dir = N | S | E | W
  {
    /** The quarter turns clockwise from north. */
    function Index(): (k: nat)
      ensures k < 4
    {
      match this
      case N => 0
      case E => 1
      case S => 2
      case W => 3
    }

    /** `Dir::turn`: the index moves by the turn's delta with Rust's
        truncating `%`, corrected by adding 4; the match arm that panics on
        an index out of range is never taken. */
    function Turned(t: Turn): (r: Dir)
      ensures r.Index() % 2 != Index() % 2
    {
      var k := RustRem(Index() + RustRem(t.Delta(), 4) + 4, 4);
      if k == 0 then N
      else if k == 1 then E
      else if k == 2 then S
      else if k == 3 then W
      else assert false; N
    }

    /** One block forward, as a step along x and along y. */
    function Dx(): int {
      match this
      case N => 0
      case S => 0
      case E => 1
      case W => -1
    }

    function Dy(): int {
      match this
      case N => 1
      case S => -1
      case E => 0
      case W => 0
    }
  }

  /** The eight turn equations of the tests. */
  lemma TurnTable()
    ensures N.Turned(Left) == W && N.Turned(Right) == E
    ensures E.Turned(Left) == N && E.Turned(Right) == S
    ensures S.Turned(Left) == E && S.Turned(Right) == W
    ensures W.Turned(Left) == S && W.Turned(Right) == N
  {
  }

  /** A turn moves the index by the turn's delta, modulo 4: Rust's
      truncating remainder plus 4 gives the Euclidean one. */
  lemma TurnRotates(d: Dir, t: Turn)
    ensures d.Turned(t).Index() == (d.Index() + t.Delta()) % 4
  {
    TurnTable();
    match d
    case N =>
    case E =>
    case S =>
    case W =>
  }

  /** A left turn undoes a right turn and the other way round. */
  lemma TurnsCancel(d: Dir)
    ensures d.Turned(Left).Turned(Right) == d
    ensures d.Turned(Right).Turned(Left) == d
  {
    TurnTable();
    match d
    case N =>
    case E =>
    case S =>
    case W =>
  }

  /** Four identical turns lead back to the starting direction. */
  lemma FourTurns(d: Dir, t: Turn)
    ensures d.Turned(t).Turned(t).Turned(t).Turned(t) == d
  {
    TurnTable();
    match d
    case N =>
    case E =>
    case S =>
    case W =>
  }

  /** Two identical turns face the opposite way: one block forward is
      undone. */
  lemma TurnAround(d: Dir, t: Turn)
    ensures d.Turned(t).Turned(t).Dx() == -d.Dx()
    ensures d.Turned(t).Turned(t).Dy() == -d.Dy()
  {
    TurnTable();
    match d
    case N =>
    case E =>
    case S =>
    case W =>
  }

  // ---------------------------------------------------------------------
  // Positions

  datatype Command = CmdTurn(turn: Turn) | CmdStep

  function Abs(n: int): nat {
    if n < 0 then -n else n
  }

  /** A block on the grid and the direction faced. The coordinates are
      Rust `i32`s; they are unbounded here. */
  datatype Position = Position(x: int, y: int, facing: Dir)
  {
    function Update(cmd: Command): (r: Position)
      ensures cmd.CmdTurn? ==> r == UpdateTurn(cmd.turn)
      ensures cmd.CmdStep? ==> r == UpdateStep()
    {
      match cmd
      case CmdTurn(turn) => UpdateTurn(turn)
      case CmdStep => UpdateStep()
    }

    /** A turn changes the direction only. */
    function UpdateTurn(turn: Turn): (r: Position)
      ensures r.x == x && r.y == y && r.facing == facing.Turned(turn)
    {
      Position(x, y, facing.Turned(turn))
    }

    /** A step keeps the direction and moves one block along it. */
    function UpdateStep(): (r: Position)
      ensures r.facing == facing
      ensures Abs(r.x - x) + Abs(r.y - y) == 1
      ensures r.x - x == facing.Dx() && r.y - y == facing.Dy()
    {
      match facing
      case N => Position(x, y + 1, facing)
      case S => Position(x, y - 1, facing)
      case E => Position(x + 1, y, facing)
      case W => Position(x - 1, y, facing)
    }

    /** The taxicab distance from the origin. */
    function DistanceToOrigin(): (d: nat)
      ensures d == 0 <==> x == 0 && y == 0
    {
      Abs(x) + Abs(y)
    }

    /** The block, without the direction. */
    function Point(): (int, int) {
      (x, y)
    }
  }

  const Origin: Position := Position(0, 0, N)

  /** One step changes the distance from the origin by exactly one. */
  lemma StepDistance(p: Position)
    ensures Abs(p.UpdateStep().DistanceToOrigin() - p.DistanceToOrigin()) == 1
  {
  }

  /** Turning around and stepping back returns to the same block. */
  lemma StepBack(p: Position, t: Turn)
    ensures p.UpdateStep().UpdateTurn(t).UpdateTurn(t).UpdateStep().Point() == p.Point()
  {
    TurnAround(p.facing, t);
  }

  /** The distance test: (2, -2) is four blocks away. */
  lemma DistanceExample()
    ensures Position(2, -2, N).DistanceToOrigin() == 4
  {
  }

  /** The fold of `part_one`: the position after all the commands. */
  function Walk(p: Position, cmds: seq<Command>): Position
    decreases |cmds|
  {
    if cmds == [] then p else Walk(p, cmds[..|cmds| - 1]).Update(cmds[|cmds| - 1])
  }

  /** Each command moves at most one block, so a walk ends no further from
      its start than the number of commands. */
  lemma {:induction false} WalkDistance(p: Position, cmds: seq<Command>)
    ensures Abs(Walk(p, cmds).x - p.x) + Abs(Walk(p, cmds).y - p.y) <= |cmds|
    decreases |cmds|
  {
    if cmds != [] {
      var q := Walk(p, cmds[..|cmds| - 1]);
      WalkDistance(p, cmds[..|cmds| - 1]);
      UpdateMovesOne(q, cmds[|cmds| - 1]);
      DistanceStep(p, q, Walk(p, cmds), |cmds| - 1);
    }
  }

  /** The taxicab triangle inequality, for a last move of one block. */
  lemma DistanceStep(p: Position, q: Position, r: Position, n: nat)
    requires Abs(q.x - p.x) + Abs(q.y - p.y) <= n
    requires Abs(r.x - q.x) + Abs(r.y - q.y) <= 1
    ensures Abs(r.x - p.x) + Abs(r.y - p.y) <= n + 1
  {
  }

  lemma UpdateMovesOne(q: Position, c: Command)
    ensures Abs(q.Update(c).x - q.x) + Abs(q.Update(c).y - q.y) <= 1
  {
  }

  lemma {:induction false} WalkAppend(p: Position, a: seq<Command>, b: seq<Command>)
    ensures Walk(p, a + b) == Walk(Walk(p, a), b)
    decreases |b|
  {
    if b == [] {
      assert a + b == a;
    } else {
      assert (a + b)[..|a + b| - 1] == a + b[..|b| - 1];
      WalkAppend(p, a, b[..|b| - 1]);
    }
  }

  /** n commands of one kind. */
  function Repeat(c: Command, n: nat): (r: seq<Command>)
    ensures |r| == n && forall i :: 0 <= i < n ==> r[i] == c
  {
    if n == 0 then [] else Repeat(c, n - 1) + [c]
  }

  /** n steps move n blocks along the direction faced. */
  lemma {:induction false} WalkSteps(p: Position, n: nat)
    ensures Walk(p, Repeat(CmdStep, n)) ==
      Position(p.x + n * p.facing.Dx(), p.y + n * p.facing.Dy(), p.facing)
  {
    if n > 0 {
      assert Repeat(CmdStep, n)[..n - 1] == Repeat(CmdStep, n - 1);
      WalkSteps(p, n - 1);
    }
  }

  /** The position test: a left turn and five steps from the origin reach
      (-5, 0) facing west. */
  lemma WalkExample()
    ensures Walk(Origin, [CmdTurn(Left)] + Repeat(CmdStep, 5)) == Position(-5, 0, W)
  {
    WalkAppend(Origin, [CmdTurn(Left)], Repeat(CmdStep, 5));
    assert Walk(Origin, [CmdTurn(Left)]) == Position(0, 0, W) by {
      assert [CmdTurn(Left)][..0] == [];
    }
    WalkSteps(Position(0, 0, W), 5);
  }

  // ---------------------------------------------------------------------
  // The first block visited twice

  /** The position after the command at index k. */
  function After(cmds: seq<Command>, k: nat): Position
    requires k < |cmds|
  {
    Walk(Origin, cmds[..k + 1])
  }

  /** The blocks reached by the steps before index k, and the origin. */
  function Seen(cmds: seq<Command>, k: nat): set<(int, int)>
    requires k <= |cmds|
  {
    {(0, 0)} + set j | 0 <= j < k && cmds[j].CmdStep? :: After(cmds, j).Point()
  }

  /** The step at index k reaches a block already seen. */
  predicate Revisits(cmds: seq<Command>, k: nat)
    requires k < |cmds|
  {
    cmds[k].CmdStep? && After(cmds, k).Point() in Seen(cmds, k)
  }

  /** No step before index n reaches a block already seen. */
  predicate NoRevisitBefore(cmds: seq<Command>, n: nat)
    requires n <= |cmds|
  {
    forall j :: 0 <= j < n ==> !Revisits(cmds, j)
  }

  lemma NoRevisitNext(cmds: seq<Command>, i: nat)
    requires i < |cmds| && NoRevisitBefore(cmds, i) && !Revisits(cmds, i)
    ensures NoRevisitBefore(cmds, i + 1)
  {
  }

  /** The loop of `part_two`: walks the commands, counting in a table the
      visits to every block reached by a step (the origin counted once
      from the start), and stops at the first block counted twice. */
  method FirstRevisit(cmds: seq<Command>) returns (r: Option<Position>)
    ensures r.None? <==> NoRevisitBefore(cmds, |cmds|)
    ensures r.Some? ==>
      exists k :: 0 <= k < |cmds| && Revisits(cmds, k) && r.value == After(cmds, k) &&
        NoRevisitBefore(cmds, k)
  {
    var table: map<(int, int), nat> := map[(0, 0) := 1];
    var posn := Origin;
    var i := 0;
    assert cmds[..0] == [];
    while i < |cmds|
      invariant i <= |cmds|
      invariant posn == Walk(Origin, cmds[..i])
      invariant table.Keys == Seen(cmds, i)
      invariant forall p :: p in table ==> table[p] == 1
      invariant NoRevisitBefore(cmds, i)
    {
      var cmd := cmds[i];
      assert cmds[..i + 1][..i] == cmds[..i];
      posn := posn.Update(cmd);
      assert posn == After(cmds, i);
      SeenNext(cmds, i);
      if cmd.CmdStep? {
        var p := (posn.x, posn.y);
        var c := (if p in table then table[p] else 0) + 1;
        if c == 2 {
          assert p == posn.Point() && Revisits(cmds, i);
          return Some(posn);
        }
        assert p !in Seen(cmds, i);
        table := table[p := c];
        assert table.Keys == Seen(cmds, i + 1);
      } else {
        assert table.Keys == Seen(cmds, i + 1);
      }
      NoRevisitNext(cmds, i);
      i := i + 1;
    }
    return None;
  }

  lemma SeenNext(cmds: seq<Command>, i: nat)
    requires i < |cmds|
    ensures Seen(cmds, i + 1) ==
      Seen(cmds, i) + (if cmds[i].CmdStep? then {After(cmds, i).Point()} else {})
  {
  }

  // ---------------------------------------------------------------------
  // Tokens

  predicate IsTurnChar(c: char) {
    c == 'L' || c == 'R'
  }

  /** A token as `Tokenize` yields it: a turn letter, or a run of digits. */
  predicate IsToken(t: string) {
    t == "L" || t == "R" || (t != [] && AllDigits(t))
  }

  /** s holds neither a turn letter nor a digit. */
  predicate NoToken(s: string) {
    forall i :: 0 <= i < |s| ==> !IsTurnChar(s[i]) && !IsDigit(s[i])
  }

  /** The length of the run of digits s starts with. */
  function DigitRun(s: string): (n: nat)
    ensures n <= |s| && AllDigits(s[..n]) && (n < |s| ==> !IsDigit(s[n]))
  {
    if s != [] && IsDigit(s[0]) then
      var n := 1 + DigitRun(s[1..]);
      assert s[..n] == [s[0]] + s[1..][..n - 1];
      n
    else 0
  }

  /** A run of digits followed by a non-digit, or by nothing, is read up to
      its end. */
  lemma {:induction false} DigitRunOf(u: string, v: string)
    requires AllDigits(u) && (v == [] || !IsDigit(v[0]))
    ensures DigitRun(u + v) == |u|
  {
    if u != [] {
      assert (u + v)[1..] == u[1..] + v;
      DigitRunOf(u[1..], v);
    }
  }

  /** `Tokenize::next` on the unread text s: the token, or `None`, and the
      text left unread. Separators, and every other char that is neither a
      turn letter nor a digit, are skipped; the char right after a run of
      digits is read and dropped with it. */
  function Scan(s: string): (r: (Option<string>, string))
    ensures |r.1| <= |s|
    ensures r.0.None? <==> NoToken(s)
    ensures r.0.None? ==> r.1 == []
    ensures r.0.Some? ==> IsToken(r.0.value) && |r.1| < |s|
    decreases |s|
  {
    if s == [] then (None, [])
    else if IsTurnChar(s[0]) then (Some([s[0]]), s[1..])
    else if IsDigit(s[0]) then
      var n := DigitRun(s);
      (Some(s[..n]), if n < |s| then s[n + 1..] else [])
    else
      assert forall i :: 0 < i < |s| ==> s[i] == s[1..][i - 1];
      Scan(s[1..])
  }

  /** Text without tokens in front of s is skipped. */
  lemma {:induction false} ScanSkips(pre: string, s: string)
    requires NoToken(pre)
    ensures Scan(pre + s) == Scan(s)
  {
    if pre != [] {
      assert (pre + s)[1..] == pre[1..] + s;
      assert NoToken(pre[1..]) by {
        assert forall i :: 0 <= i < |pre| - 1 ==> pre[1..][i] == pre[i + 1];
      }
      ScanSkips(pre[1..], s);
    } else {
      assert pre + s == s;
    }
  }

  lemma ScanSkipsOne(c: char, s: string)
    requires !IsTurnChar(c) && !IsDigit(c)
    ensures Scan([c] + s) == Scan(s)
  {
    assert ([c] + s)[1..] == s;
  }

  /** A turn letter is a token by itself. */
  lemma ScanTurn(c: char, s: string)
    requires IsTurnChar(c)
    ensures Scan([c] + s) == (Some([c]), s)
  {
    assert ([c] + s)[1..] == s;
  }

  /** A run of digits is one token, and the char after it is dropped. */
  lemma ScanDigits(u: string, v: string)
    requires u != [] && AllDigits(u) && (v == [] || !IsDigit(v[0]))
    ensures Scan(u + v) == (Some(u), if v == [] then [] else v[1..])
  {
    DigitRunOf(u, v);
    assert (u + v)[..|u|] == u;
    if v != [] {
      assert (u + v)[|u| + 1..] == v[1..];
    } else {
      assert u + v == u;
    }
  }

  /** The tokenizer over the chars of a string; `rest` is what is still
      unread. */
  class Tokenize {
    var rest: string

    constructor(s: string)
      ensures rest == s
    {
      rest := s;
    }

    /** `Tokenize::next`. */
    method Next() returns (tok: Option<string>)
      modifies this
      ensures (tok, rest) == Scan(old(rest))
    {
      while true
        invariant Scan(rest) == Scan(old(rest))
        decreases |rest|
      {
        if rest == [] {
          return None;
        }
        var ch := rest[0];
        assert rest == [ch] + rest[1..];
        rest := rest[1..];
        if ch == ',' || ch == ' ' {
          ScanSkipsOne(ch, rest);
          continue;
        }
        if ch == 'L' || ch == 'R' {
          ScanTurn(ch, rest);
          return Some([ch]);
        }
        if IsDigit(ch) {
          ghost var start := [ch] + rest;
          var s := [];
          while true
            invariant start == s + [ch] + rest && IsDigit(ch) && AllDigits(s)
            invariant Scan(start) == Scan(old(rest))
            decreases |rest|
          {
            s := s + [ch];
            if rest == [] {
              ScanDigits(s, []);
              assert start == s + [];
              return Some(s);
            }
            var next := rest[0];
            assert rest == [next] + rest[1..];
            rest := rest[1..];
            if !IsDigit(next) {
              ScanDigits(s, [next] + rest);
              assert start == s + ([next] + rest);
              return Some(s);
            }
            ch := next;
          }
        }
        ScanSkipsOne(ch, rest);
      }
    }
  }

  /** The tokenizer test: ",  L   ,   32" gives "L", then "32", then
      nothing. */
  method TokenizeExample() returns (a: Option<string>, b: Option<string>, c: Option<string>)
    ensures a == Some("L") && b == Some("32") && c == None
  {
    TokenizeExampleScans();
    var tok := new Tokenize(",  L   ,   32");
    a := tok.Next();
    b := tok.Next();
    c := tok.Next();
  }

  lemma TokenizeExampleScans()
    ensures Scan(",  L   ,   32") == (Some("L"), "   ,   32")
    ensures Scan("   ,   32") == (Some("32"), [])
    ensures Scan([]) == (None, [])
  {
    TokenizeExampleFirst();
    TokenizeExampleSecond();
  }

  lemma TokenizeExampleFirst()
    ensures Scan(",  L   ,   32") == (Some("L"), "   ,   32")
  {
    assert NoToken(",  ");
    assert ",  L   ,   32" == ",  " + (['L'] + "   ,   32");
    ScanSkips(",  ", ['L'] + "   ,   32");
    ScanTurn('L', "   ,   32");
  }

  lemma TokenizeExampleSecond()
    ensures Scan("   ,   32") == (Some("32"), [])
  {
    assert NoToken("   ,   ");
    assert "   ,   32" == "   ,   " + ("32" + []);
    ScanSkips("   ,   ", "32" + []);
    ScanDigits("32", []);
  }

  // ---------------------------------------------------------------------
  // Commands

  /** `Turn::from_str`. */
  function ParseTurn(s: string): (r: Option<Turn>)
    ensures r == Some(Left) <==> s == "L"
    ensures r == Some(Right) <==> s == "R"
    ensures r.None? <==> s != "L" && s != "R"
  {
    if s == "L" then Some(Left) else if s == "R" then Some(Right) else None
  }

  /** What one call of `Parse::next` gives: a command, the end of the
      commands (`None`), or a panic of an `expect` with its message. */
  datatype Outcome = Emit(cmd: Command) | End | Panic(msg: string)

  /** The state of the parser: the unread text and the steps still to be
      emitted. */
  datatype Reader = Reader(rest: string, steps: nat)

  /** `Parse::next_tokens`: reads a turn token and a steps token, emits
      the turn and keeps the steps; a missing token ends the commands, and
      a token of the wrong kind panics. */
  function NextTokensOf(st: Reader): (r: (Outcome, Reader))
    ensures r.0.End? <==> NoToken(st.rest) || NoToken(Scan(st.rest).1)
    ensures r.0.Emit? ==> r.0.cmd.CmdTurn? && |r.1.rest| < |st.rest| && r.1.steps <= U32_MAX
    ensures r.0.Emit? ==> ParseTurn(Scan(st.rest).0.value) == Some(r.0.cmd.turn)
    ensures r.0.End? ==> r.1.steps == st.steps
  {
    var (turn, afterTurn) := Scan(st.rest);
    if turn.None? then (End, Reader(afterTurn, st.steps))
    else
      var (steps, afterSteps) := Scan(afterTurn);
      if steps.None? then (End, Reader(afterSteps, st.steps))
      else
        match ParseTurn(turn.value)
        case None => (Panic("expected a turn"), Reader(afterSteps, st.steps))
        case Some(t) =>
          match ParseU32(steps.value)
          case None => (Panic("expected a u32"), Reader(afterSteps, st.steps))
          case Some(n) => (Emit(CmdTurn(t)), Reader(afterSteps, n))
  }

  /** What `next_tokens` gives, case by case on the two tokens it reads: a
      turn letter and a `u32` emit the turn and make the count the pending
      steps; a first token that is not a turn letter, or a second that is
      not a `u32`, panics with the message of its `expect`. */
  lemma NextTokensOfCases(st: Reader)
    ensures var (turn, afterTurn) := Scan(st.rest); var (count, afterCount) := Scan(afterTurn);
      turn.Some? && count.Some? ==>
        (NextTokensOf(st).0 == Panic("expected a turn") <==> ParseTurn(turn.value).None?) &&
        (NextTokensOf(st).0 == Panic("expected a u32") <==>
          ParseTurn(turn.value).Some? && ParseU32(count.value).None?) &&
        (NextTokensOf(st).0.Emit? <==>
          ParseTurn(turn.value).Some? && ParseU32(count.value).Some?) &&
        (NextTokensOf(st).0.Emit? ==>
          NextTokensOf(st) == (Emit(CmdTurn(ParseTurn(turn.value).value)),
                               Reader(afterCount, ParseU32(count.value).value)))
  {
  }

  /** `Parse::next`: a pending step is emitted before any more text is
      read. */
  function NextOf(st: Reader): (r: (Outcome, Reader))
    ensures st.steps > 0 ==> r == (Emit(CmdStep), Reader(st.rest, st.steps - 1))
    ensures st.steps == 0 ==> r == NextTokensOf(st)
    ensures r.0.Emit? ==>
      |r.1.rest| < |st.rest| || (r.1.rest == st.rest && r.1.steps < st.steps)
  {
    if st.steps == 0 then NextTokensOf(st) else (Emit(CmdStep), Reader(st.rest, st.steps - 1))
  }

  /** All the commands the parser emits from st, and how it stops. */
  function Run(st: Reader): (r: (seq<Command>, Outcome))
    ensures !r.1.Emit?
    decreases |st.rest|, st.steps
  {
    var (o, next) := NextOf(st);
    if o.Emit? then
      var (cmds, last) := Run(next);
      ([o.cmd] + cmds, last)
    else ([], o)
  }

  /** The command parser: a tokenizer and the steps still to emit. */
  class Parse {
    const tokenize: Tokenize
    var steps: nat

    /** `Parse { tokenize: Tokenize::from_str(s), steps: 0 }`. */
    constructor(s: string)
      ensures tokenize.rest == s && steps == 0 && fresh(tokenize)
    {
      tokenize := new Tokenize(s);
      steps := 0;
    }

    function State(): Reader
      reads this, tokenize
    {
      Reader(tokenize.rest, steps)
    }

    method NextTokens() returns (r: Outcome)
      modifies this, tokenize
      ensures (r, State()) == NextTokensOf(old(State()))
    {
      var turn := tokenize.Next();
      if turn.None? {
        return End;
      }
      var count := tokenize.Next();
      if count.None? {
        return End;
      }
      var t := ParseTurn(turn.value);
      if t.None? {
        return Panic("expected a turn");
      }
      var n := ParseU32(count.value);
      if n.None? {
        return Panic("expected a u32");
      }
      steps := n.value;
      return Emit(CmdTurn(t.value));
    }

    method Next() returns (r: Outcome)
      modifies this, tokenize
      ensures (r, State()) == NextOf(old(State()))
    {
      if steps == 0 {
        r := NextTokens();
      } else {
        steps := steps - 1;
        r := Emit(CmdStep);
      }
    }

    /** Draws commands until the parser ends or panics, as the loops of
        `part_one` and `part_two` do. */
    method Commands() returns (cmds: seq<Command>, last: Outcome)
      modifies this, tokenize
      ensures (cmds, last) == Run(old(State()))
    {
      cmds := [];
      assert cmds + Run(State()).0 == Run(State()).0;
      while true
        invariant (cmds + Run(State()).0, Run(State()).1) == Run(old(State()))
        decreases |tokenize.rest|, steps
      {
        ghost var before := State();
        var o := Next();
        if !o.Emit? {
          assert Run(before) == ([], o);
          assert cmds + [] == cmds;
          return cmds, o;
        }
        assert Run(before).0 == [o.cmd] + Run(State()).0;
        assert cmds + Run(before).0 == (cmds + [o.cmd]) + Run(State()).0;
        cmds := cmds + [o.cmd];
      }
    }
  }

  // ---------------------------------------------------------------------
  // Instructions as text

  /** An instruction of the puzzle: a turn and a number of blocks. */
  datatype Instruction = Instruction(turn: Turn, blocks: nat)

  function Letter(t: Turn): (s: string)
    ensures ParseTurn(s) == Some(t)
  {
    match t
    case Left => "L"
    case Right => "R"
  }

  /** Instructions written as the puzzle writes them: "L2, R1, L1". */
  function Format(ins: seq<Instruction>): string {
    if ins == [] then []
    else Letter(ins[0].turn) + Show(ins[0].blocks) + (if |ins| == 1 then [] else ", " + Format(ins[1..]))
  }

  /** Each instruction as a turn followed by one step per block. */
  function Expand(ins: seq<Instruction>): seq<Command> {
    if ins == [] then [] else [CmdTurn(ins[0].turn)] + Repeat(CmdStep, ins[0].blocks) + Expand(ins[1..])
  }

  /** Every count of blocks fits in a `u32`. */
  predicate Fits(ins: seq<Instruction>) {
    forall i :: 0 <= i < |ins| ==> ins[i].blocks <= U32_MAX
  }

  /** Pending steps are emitted one by one before the text is read on. */
  lemma {:induction false} RunSteps(rest: string, n: nat)
    ensures Run(Reader(rest, n)) == (Repeat(CmdStep, n) + Run(Reader(rest, 0)).0, Run(Reader(rest, 0)).1)
  {
    if n > 0 {
      RunSteps(rest, n - 1);
      RunOneStep(rest, n, Run(Reader(rest, 0)));
    } else {
      assert Repeat(CmdStep, 0) + Run(Reader(rest, 0)).0 == Run(Reader(rest, 0)).0;
    }
  }

  /** One more pending step puts one more step in front. */
  lemma RunOneStep(rest: string, n: nat, tail: (seq<Command>, Outcome))
    requires n > 0
    requires Run(Reader(rest, n - 1)) == (Repeat(CmdStep, n - 1) + tail.0, tail.1)
    ensures Run(Reader(rest, n)) == (Repeat(CmdStep, n) + tail.0, tail.1)
  {
    RunEmits(Reader(rest, n));
    var steps := Repeat(CmdStep, n - 1);
    assert Repeat(CmdStep, n) == [CmdStep] + steps;
    assert [CmdStep] + (steps + tail.0) == ([CmdStep] + steps) + tail.0;
  }

  /** A leading space is skipped. */
  lemma RunSkipsSpace(rest: string)
    ensures Run(Reader(" " + rest, 0)) == Run(Reader(rest, 0))
  {
    assert (" " + rest)[1..] == rest;
    assert Scan(" " + rest) == Scan(rest);
  }

  /** A turn letter and a count read from the front of the text: the turn
      is emitted, the count becomes the pending steps, and the char after
      the digits is dropped. */
  lemma NextTokensOfText(s: string, t: Turn, n: nat, tail: string)
    requires s == Letter(t) + Show(n) + tail
    requires n <= U32_MAX && (tail == [] || !IsDigit(tail[0]))
    ensures NextOf(Reader(s, 0)) ==
      (Emit(CmdTurn(t)), Reader(if tail == [] then [] else tail[1..], n))
  {
    var letter, digits := Letter(t), Show(n);
    assert letter == [letter[0]];
    assert letter + digits + tail == [letter[0]] + (digits + tail);
    ScanTurn(letter[0], digits + tail);
    ScanDigits(digits, tail);
    ParseShowRoundTrip(n);
  }

  /** The text of the instructions after the first one, with the comma. */
  function TailOf(ins: seq<Instruction>): (tail: string)
    requires ins != []
    ensures Format(ins) == Letter(ins[0].turn) + Show(ins[0].blocks) + tail
    ensures tail == [] || tail[0] == ','
  {
    if |ins| == 1 then [] else ", " + Format(ins[1..])
  }

  /** One instruction read from its text: the turn is emitted and its
      blocks become the pending steps. */
  lemma NextOfFormat(ins: seq<Instruction>)
    requires ins != [] && Fits(ins)
    ensures NextOf(Reader(Format(ins), 0)) ==
      (Emit(CmdTurn(ins[0].turn)), Reader(After1(ins), ins[0].blocks))
  {
    AfterTail(ins);
    NextTokensOfText(Format(ins), ins[0].turn, ins[0].blocks, TailOf(ins));
  }

  lemma AfterTail(ins: seq<Instruction>)
    requires ins != []
    ensures After1(ins) == if TailOf(ins) == [] then [] else TailOf(ins)[1..]
  {
    if |ins| > 1 {
      var rest := Format(ins[1..]);
      assert TailOf(ins) == ", " + rest;
      assert (", " + rest)[1..] == " " + rest;
    }
  }

  /** The text left after the first instruction and the comma after it. */
  function After1(ins: seq<Instruction>): string
    requires ins != []
  {
    if |ins| == 1 then [] else " " + Format(ins[1..])
  }

  lemma FitsTail(ins: seq<Instruction>)
    requires ins != [] && Fits(ins)
    ensures Fits(ins[1..])
  {
    assert forall i :: 0 <= i < |ins| - 1 ==> ins[1..][i] == ins[i + 1];
  }

  /** A command emitted is the first of all the commands. */
  lemma RunEmits(st: Reader)
    requires NextOf(st).0.Emit?
    ensures Run(st) == ([NextOf(st).0.cmd] + Run(NextOf(st).1).0, Run(NextOf(st).1).1)
  {
  }

  lemma RunEnd()
    ensures Run(Reader([], 0)) == ([], End)
  {
    assert Scan([]) == (None, []);
  }

  /** Reading instructions written as text gives back their commands:
      each turn followed by one step per block, then the end. */
  lemma {:induction false} RunFormat(ins: seq<Instruction>)
    requires Fits(ins)
    ensures Run(Reader(Format(ins), 0)) == (Expand(ins), End)
  {
    if ins == [] {
      RunEnd();
    } else {
      NextOfFormat(ins);
      var next := After1(ins);
      RunSteps(next, ins[0].blocks);
      if |ins| == 1 {
        RunEnd();
        assert Expand(ins[1..]) == [];
      } else {
        RunSkipsSpace(Format(ins[1..]));
        FitsTail(ins);
        RunFormat(ins[1..]);
      }
      var steps := Repeat(CmdStep, ins[0].blocks);
      RunEmits(Reader(Format(ins), 0));
      assert [CmdTurn(ins[0].turn)] + (steps + Expand(ins[1..])) == Expand(ins);
    }
  }

  const ExampleInstructions: seq<Instruction> :=
    [Instruction(Left, 2), Instruction(Right, 1), Instruction(Left, 1)]

  lemma FormatExample()
    ensures Format(ExampleInstructions) == "L2, R1, L1"
  {
    var ins := ExampleInstructions;
    assert Show(2) == "2" && Show(1) == "1";
    assert ins[1..][1..] == ins[2..];
    assert Format(ins[2..]) == "L1";
    assert Format(ins[1..]) == "R1, L1";
  }

  lemma ExpandExample()
    ensures Expand(ExampleInstructions) ==
      [CmdTurn(Left), CmdStep, CmdStep, CmdTurn(Right), CmdStep, CmdTurn(Left), CmdStep]
  {
    var ins := ExampleInstructions;
    assert Repeat(CmdStep, 2) == [CmdStep, CmdStep];
    assert Repeat(CmdStep, 1) == [CmdStep];
    assert ins[2..][1..] == [] && ins[1..][1..] == ins[2..];
    assert Expand(ins[2..]) == [CmdTurn(Left), CmdStep];
    assert Expand(ins[1..]) == [CmdTurn(Right), CmdStep, CmdTurn(Left), CmdStep];
  }

  /** The command test: "L2, R1, L1" reads as a left turn and two steps, a
      right turn and a step, a left turn and a step. */
  lemma ReadCommandsExample()
    ensures Run(Reader("L2, R1, L1", 0)) ==
      ([CmdTurn(Left), CmdStep, CmdStep, CmdTurn(Right), CmdStep, CmdTurn(Left), CmdStep], End)
  {
    FormatExample();
    ExpandExample();
    RunFormat(ExampleInstructions);
  }
}
