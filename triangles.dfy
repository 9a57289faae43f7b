/** Triangle candidates: lines of three whitespace-separated side lengths,
    a test that the sides can form a triangle, and the regrouping of three
    rows into three column triangles. */
module Triangles {
  import opened Decimal

  // ---------------------------------------------------------------------
  // Sides

  /** Three side lengths, each a `u32`. */
  datatype Triangle = Triangle(a: nat, b: nat, c: nat)
  {
    /** `Triangle::iter`: the sides in field order. */
    function Sides(): (s: seq<nat>)
      ensures |s| == 3 && s[0] == a && s[1] == b && s[2] == c
    {
      [a, b, c]
    }
  }

  /** `Iterator::max` of a non-empty sequence. */
  function Max(s: seq<nat>): (m: nat)
    requires s != []
    ensures m in s && forall i :: 0 <= i < |s| ==> s[i] <= m
  {
    if |s| == 1 then s[0]
    else
      var m := Max(s[1..]);
      assert forall i :: 1 <= i < |s| ==> s[i] == s[1..][i - 1];
      if s[0] >= m then s[0] else m
  }

  /** `Iterator::sum`. */
  function Sum(s: seq<nat>): nat {
    if s == [] then 0 else s[0] + Sum(s[1..])
  }

  lemma SumOfThree(t: Triangle)
    ensures Sum(t.Sides()) == t.a + t.b + t.c
  {
    var s := t.Sides();
    assert s[1..][1..][1..] == [];
    assert Sum(s[1..][1..]) == t.c + Sum(s[1..][1..][1..]);
    assert Sum(s[1..]) == t.b + Sum(s[1..][1..]);
  }

  /** The range condition spelled out on the sides. */
  lemma InRangeOf(t: Triangle)
    ensures InRange(t) <==>
      2 * t.a <= U32_MAX && 2 * t.b <= U32_MAX && 2 * t.c <= U32_MAX && t.a + t.b + t.c <= U32_MAX
  {
    SumOfThree(t);
    MaxOfThree(t);
  }

  /** Neither `2 * max` nor the sum of the sides leaves the `u32` range;
      either overflow panics. */
  predicate InRange(t: Triangle) {
    2 * Max(t.Sides()) <= U32_MAX && Sum(t.Sides()) <= U32_MAX
  }

  /** `is_triangle`: twice the longest side is less than the perimeter,
      which is to say each side is shorter than the other two together. */
  function IsTriangle(t: Triangle): (r: bool)
    requires InRange(t)
    ensures r <==> t.a < t.b + t.c && t.b < t.a + t.c && t.c < t.a + t.b
  {
    SumOfThree(t);
    2 * Max(t.Sides()) < Sum(t.Sides())
  }

  /** The test and its range condition do not depend on the order of the
      sides: they are kept by swapping the first two and by rotating, which
      together give every order. */
  lemma IsTriangleSymmetric(t: Triangle)
    ensures InRange(t) == InRange(Triangle(t.b, t.a, t.c))
    ensures InRange(t) == InRange(Triangle(t.b, t.c, t.a))
    ensures InRange(t) ==> IsTriangle(t) == IsTriangle(Triangle(t.b, t.a, t.c))
    ensures InRange(t) ==> IsTriangle(t) == IsTriangle(Triangle(t.b, t.c, t.a))
  {
    InRangeOf(t);
    InRangeOf(Triangle(t.b, t.a, t.c));
    InRangeOf(Triangle(t.b, t.c, t.a));
  }

  lemma MaxOfThree(t: Triangle)
    ensures Max(t.Sides()) == if t.a >= t.b && t.a >= t.c then t.a else if t.b >= t.c then t.b else t.c
  {
    var s := t.Sides();
    assert Max(s) in s;
  }

  predicate AllInRange(ts: seq<Triangle>) {
    forall i :: 0 <= i < |ts| ==> InRange(ts[i])
  }

  /** The count of `part_one` and `part_two`: how many candidates are
      triangles. */
  function CountTriangles(ts: seq<Triangle>): (n: nat)
    requires AllInRange(ts)
    ensures n <= |ts|
    ensures n == 0 <==> forall i :: 0 <= i < |ts| ==> !IsTriangle(ts[i])
  {
    if ts == [] then 0
    else
      assert forall i :: 1 <= i < |ts| ==> ts[i] == ts[1..][i - 1];
      (if IsTriangle(ts[0]) then 1 else 0) + CountTriangles(ts[1..])
  }

  // ---------------------------------------------------------------------
  // Lines

  /** `char::is_whitespace`: the chars with the Unicode White_Space
      property. */
  predicate IsWhitespace(c: char) {
    ('\t' <= c <= '\r') || c == ' ' || c == '\U{0085}' || c == '\U{00A0}' || c == '\U{1680}' ||
    ('\U{2000}' <= c <= '\U{200A}') || c == '\U{2028}' || c == '\U{2029}' || c == '\U{202F}' ||
    c == '\U{205F}' || c == '\U{3000}'
  }

  predicate AllWhitespace(s: string) {
    forall i :: 0 <= i < |s| ==> IsWhitespace(s[i])
  }

  predicate NoWhitespace(s: string) {
    forall i :: 0 <= i < |s| ==> !IsWhitespace(s[i])
  }

  /** What `split_whitespace` yields: a non-empty run without whitespace. */
  predicate IsWord(w: string) {
    w != [] && NoWhitespace(w)
  }

  /** The length of the run of whitespace s starts with. */
  function SpaceRun(s: string): (n: nat)
    ensures n <= |s| && AllWhitespace(s[..n]) && (n < |s| ==> !IsWhitespace(s[n]))
  {
    if s != [] && IsWhitespace(s[0]) then
      var n := 1 + SpaceRun(s[1..]);
      assert s[..n] == [s[0]] + s[1..][..n - 1];
      n
    else 0
  }

  /** The length of the run of other chars s starts with. */
  function WordRun(s: string): (n: nat)
    ensures n <= |s| && NoWhitespace(s[..n]) && (n < |s| ==> IsWhitespace(s[n]))
  {
    if s != [] && !IsWhitespace(s[0]) then
      var n := 1 + WordRun(s[1..]);
      assert s[..n] == [s[0]] + s[1..][..n - 1];
      n
    else 0
  }

  /** `str::split_whitespace`: the maximal runs of chars that are not
      whitespace, in order. */
  function Words(s: string): (ws: seq<string>)
    ensures forall i :: 0 <= i < |ws| ==> IsWord(ws[i])
    decreases |s|
  {
    var k := SpaceRun(s);
    if k == |s| then []
    else
      var n := WordRun(s[k..]);
      [s[k..][..n]] + Words(s[k..][n..])
  }

  /** Words separated by single spaces. */
  function Unwords(ws: seq<string>): string {
    if ws == [] then [] else if |ws| == 1 then ws[0] else ws[0] + " " + Unwords(ws[1..])
  }

  /** Leading whitespace is skipped. */
  lemma {:induction false} WordsAfterSpace(pad: string, s: string)
    requires AllWhitespace(pad)
    ensures Words(pad + s) == Words(s)
  {
    var m := SpaceRun(s);
    SpaceRunOf(pad + s[..m], s[m..]);
    assert pad + s == (pad + s[..m]) + s[m..];
    assert (pad + s)[|pad| + m..] == s[m..];
  }

  /** A run of whitespace followed by something else, or by nothing, is read
      up to its end. */
  lemma {:induction false} SpaceRunOf(u: string, v: string)
    requires AllWhitespace(u) && (v == [] || !IsWhitespace(v[0]))
    ensures SpaceRun(u + v) == |u|
  {
    if u != [] {
      assert (u + v)[1..] == u[1..] + v;
      SpaceRunOf(u[1..], v);
    }
  }

  lemma {:induction false} WordRunOf(u: string, v: string)
    requires NoWhitespace(u) && (v == [] || IsWhitespace(v[0]))
    ensures WordRun(u + v) == |u|
  {
    if u != [] {
      assert (u + v)[1..] == u[1..] + v;
      WordRunOf(u[1..], v);
    }
  }

  /** Splitting words joined by spaces gives the words back. */
  lemma {:induction false} WordsUnwords(ws: seq<string>)
    requires forall i :: 0 <= i < |ws| ==> IsWord(ws[i])
    ensures Words(Unwords(ws)) == ws
  {
    if ws == [] {
      assert SpaceRun([]) == 0;
    } else {
      var w := ws[0];
      var rest := if |ws| == 1 then [] else " " + Unwords(ws[1..]);
      assert Unwords(ws) == w + rest;
      SpaceRunOf([], w + rest);
      assert [] + (w + rest) == w + rest;
      WordRunOf(w, rest);
      assert (w + rest)[..|w|] == w && (w + rest)[|w|..] == rest;
      if |ws| == 1 {
        assert SpaceRun([]) == 0;
      } else {
        assert forall i :: 0 <= i < |ws| - 1 ==> ws[1..][i] == ws[i + 1];
        WordsUnwords(ws[1..]);
        WordsAfterSpace(" ", Unwords(ws[1..]));
      }
      assert ws == [w] + ws[1..];
    }
  }

  /** What `parse_line` gives: the three sides, an error, or the panic of
      its `expect`. */
  datatype Parsed = Ok(sides: (nat, nat, nat)) | Err(msg: string) | Panic(msg: string)

  /** `parse_line`: exactly three words, each a `u32`; another number of
      words is an error, and a word that is not a `u32` panics. */
  function ParseLine(s: string): (r: Parsed)
    ensures r.Err? <==> |Words(s)| != 3
    ensures r.Ok? ==> (|Words(s)| == 3 && ParseU32(Words(s)[0]) == Some(r.sides.0) &&
      ParseU32(Words(s)[1]) == Some(r.sides.1) && ParseU32(Words(s)[2]) == Some(r.sides.2))
    ensures r.Panic? ==> exists i :: 0 <= i < 3 && ParseU32(Words(s)[i]).None?
  {
    var ws := Words(s);
    if |ws| == 3 then
      match (ParseU32(ws[0]), ParseU32(ws[1]), ParseU32(ws[2]))
      case (Some(a), Some(b), Some(c)) => Ok((a, b, c))
      case _ => Panic("expected integer string")
    else Err("Expected 3 space separated values")
  }

  /** What `Triangle::from_str` gives: a triangle, the error of
      `parse_line` passed on by `try!`, or its panic. */
  datatype FromStrResult = Read(t: Triangle) | Failed(msg: string) | Panicked(msg: string)

  /** `Triangle::from_str`: the three values of `parse_line` as sides, in
      order. */
  function FromStr(s: string): (r: FromStrResult)
    ensures r.Read? <==> ParseLine(s).Ok?
    ensures r.Read? ==> r.t.Sides() == [ParseLine(s).sides.0, ParseLine(s).sides.1, ParseLine(s).sides.2]
    ensures r.Failed? <==> |Words(s)| != 3
    ensures r.Failed? ==> r.msg == ParseLine(s).msg
  {
    match ParseLine(s)
    case Ok((a, b, c)) => Read(Triangle(a, b, c))
    case Err(msg) => Failed(msg)
    case Panic(msg) => Panicked(msg)
  }

  /** A line of three numbers, however indented, is read back. */
  lemma ParseLineFormat(pad: string, a: nat, b: nat, c: nat)
    requires AllWhitespace(pad) && a <= U32_MAX && b <= U32_MAX && c <= U32_MAX
    ensures ParseLine(pad + Unwords([Show(a), Show(b), Show(c)])) == Ok((a, b, c))
  {
    var ws := [Show(a), Show(b), Show(c)];
    forall i | 0 <= i < 3
      ensures IsWord(ws[i])
    {
      if i == 0 { ShowIsWord(a); } else if i == 1 { ShowIsWord(b); } else { ShowIsWord(c); }
    }
    WordsUnwords(ws);
    WordsAfterSpace(pad, Unwords(ws));
    ParseShowRoundTrip(a);
    ParseShowRoundTrip(b);
    ParseShowRoundTrip(c);
  }

  /** A number in decimal is one word. */
  lemma ShowIsWord(n: nat)
    ensures IsWord(Show(n))
  {
  }

  /** Two numbers are an error, not a panic. */
  lemma ParseLineTooFew(a: nat, b: nat)
    ensures ParseLine(Unwords([Show(a), Show(b)])).Err?
  {
    var ws := [Show(a), Show(b)];
    forall i | 0 <= i < 2
      ensures IsWord(ws[i])
    {
      if i == 0 { ShowIsWord(a); } else { ShowIsWord(b); }
    }
    WordsUnwords(ws);
  }

  /** The puzzle's example: "5 10 25" has no triangle, for 10 + 5 < 25. */
  lemma Example()
    ensures ParseLine("  5 10 25") == Ok((5, 10, 25))
    ensures InRange(Triangle(5, 10, 25)) && !IsTriangle(Triangle(5, 10, 25))
  {
    ExampleParses();
    InRangeOf(Triangle(5, 10, 25));
  }

  lemma ExampleParses()
    ensures ParseLine("  5 10 25") == Ok((5, 10, 25))
  {
    ParseLineFormat("  ", 5, 10, 25);
    ExampleShows();
    assert Unwords([Show(10), Show(25)]) == Show(10) + " " + Show(25);
    assert Unwords([Show(5), Show(10), Show(25)]) == Show(5) + " " + (Show(10) + " " + Show(25));
    ExampleText();
  }

  lemma ExampleText()
    ensures "  " + ("5" + " " + ("10" + " " + "25")) == "  5 10 25"
  {
  }

  lemma ExampleShows()
    ensures Show(5) == "5" && Show(10) == "10" && Show(25) == "25"
  {
    assert Show(1) == "1" && Show(2) == "2";
  }

  // ---------------------------------------------------------------------
  // Columns

  type Row = (nat, nat, nat)

  /** Three rows read down their columns. */
  function Group(r0: Row, r1: Row, r2: Row): seq<Triangle> {
    [Triangle(r0.0, r1.0, r2.0), Triangle(r0.1, r1.1, r2.1), Triangle(r0.2, r1.2, r2.2)]
  }

  /** `tuples()` then `flat_map` in `part_two`: each group of three rows
      becomes its three column triangles; a last group of fewer than three
      rows is dropped. */
  function Columns(rows: seq<Row>): (ts: seq<Triangle>)
    ensures |ts| == |rows| / 3 * 3
    decreases |rows|
  {
    if |rows| < 3 then [] else Group(rows[0], rows[1], rows[2]) + Columns(rows[3..])
  }

  /** The triangles of group g are the columns of rows 3g, 3g+1 and 3g+2. */
  lemma {:induction false} ColumnsAt(rows: seq<Row>, g: nat)
    requires 3 * g + 3 <= |rows|
    ensures Columns(rows)[3 * g] == Triangle(rows[3 * g].0, rows[3 * g + 1].0, rows[3 * g + 2].0)
    ensures Columns(rows)[3 * g + 1] == Triangle(rows[3 * g].1, rows[3 * g + 1].1, rows[3 * g + 2].1)
    ensures Columns(rows)[3 * g + 2] == Triangle(rows[3 * g].2, rows[3 * g + 1].2, rows[3 * g + 2].2)
  {
    if g > 0 {
      var tail := rows[3..];
      ColumnsAt(tail, g - 1);
      var k := 3 * g;
      assert tail[k - 3] == rows[k] && tail[k - 2] == rows[k + 1] && tail[k - 1] == rows[k + 2];
      ColumnsShift(rows, k - 3);
      ColumnsShift(rows, k - 2);
      ColumnsShift(rows, k - 1);
    }
  }

  lemma ColumnsShift(rows: seq<Row>, i: nat)
    requires |rows| >= 3 && i < |Columns(rows[3..])|
    ensures Columns(rows)[i + 3] == Columns(rows[3..])[i]
  {
    var rest := Columns(rows[3..]);
    assert rows == [rows[0], rows[1], rows[2]] + rows[3..];
    ColumnsOfGroup(rows[0], rows[1], rows[2], rows[3..]);
    assert (Group(rows[0], rows[1], rows[2]) + rest)[i + 3] == rest[i];
  }

  /** Rows past the last complete group do not matter. */
  lemma {:induction false} ColumnsDropsPartialGroup(rows: seq<Row>, tail: seq<Row>)
    requires |rows| % 3 == 0 && |tail| < 3
    ensures Columns(rows + tail) == Columns(rows)
    decreases |rows|
  {
    if rows == [] {
      assert rows + tail == tail;
    } else {
      assert (rows + tail)[3..] == rows[3..] + tail;
      assert (rows + tail)[..3] == rows[..3];
      ColumnsDropsPartialGroup(rows[3..], tail);
    }
  }

  // ---------------------------------------------------------------------
  // The two counts

  /** The outcome of a part: the count it prints, or the panic that stops it. */
  datatype Answer = Count(n: nat) | Abort(msg: string)

  /** Debug builds panic on `u32` overflow in `2 * max` or in the sum. */
  const OVERFLOW := "arithmetic overflow"

  /** `parse_line` applied to every line; the parts below consume the
      results in order, so a panic is raised at the line that causes it. */
  function ParseAll(lines: seq<string>): (ps: seq<Parsed>)
    ensures |ps| == |lines| && forall i :: 0 <= i < |lines| ==> ps[i] == ParseLine(lines[i])
  {
    if lines == [] then [] else [ParseLine(lines[0])] + ParseAll(lines[1..])
  }

  /** The panic of `expect("expected three integers")` on an error, or the
      panic `parse_line` raised itself. */
  function LinePanic(p: Parsed): string
    requires !p.Ok?
  {
    if p.Err? then "expected three integers" else p.msg
  }

  /** The rows of all lines, if each has three values. */
  function Rows(ps: seq<Parsed>): (r: Option<seq<Row>>)
    ensures r.Some? <==> forall i :: 0 <= i < |ps| ==> ps[i].Ok?
    ensures r.Some? ==> (|r.value| == |ps| && forall i :: 0 <= i < |ps| ==> r.value[i] == ps[i].sides)
  {
    if ps == [] then Some([])
    else
      assert forall i :: 1 <= i < |ps| ==> ps[i] == ps[1..][i - 1];
      var rest := Rows(ps[1..]);
      if !ps[0].Ok? || rest.None? then None
      else
        var rows := [ps[0].sides] + rest.value;
        assert forall i :: 1 <= i < |ps| ==> rows[i] == rest.value[i - 1];
        Some(rows)
  }

  function AsTriangle(row: Row): Triangle {
    Triangle(row.0, row.1, row.2)
  }

  /** The rows read across, as in `part_one`. */
  function Across(rows: seq<Row>): (ts: seq<Triangle>)
    ensures |ts| == |rows| && forall i :: 0 <= i < |rows| ==> ts[i] == AsTriangle(rows[i])
  {
    if rows == [] then [] else [AsTriangle(rows[0])] + Across(rows[1..])
  }

  /** `filter(is_triangle)` over ts and then the rest of the stream: ts is
      checked first, in order, and its triangles are added to what the
      rest counts. */
  function Tally(ts: seq<Triangle>, rest: Answer): (r: Answer)
    ensures r.Count? ==> rest.Count? && r.n <= |ts| + rest.n
  {
    if ts == [] then rest
    else if !InRange(ts[0]) then Abort(OVERFLOW)
    else match Tally(ts[1..], rest)
      case Count(n) => Count(n + if IsTriangle(ts[0]) then 1 else 0)
      case abort => abort
  }

  /** `part_one` on parsed lines: each line's triangle is tested before the
      next line is looked at. */
  function PartOneOf(ps: seq<Parsed>): (r: Answer)
    ensures r.Count? ==> r.n <= |ps|
  {
    if ps == [] then Count(0)
    else if !ps[0].Ok? then Abort(LinePanic(ps[0]))
    else Tally([AsTriangle(ps[0].sides)], PartOneOf(ps[1..]))
  }

  function PartOne(lines: seq<string>): (r: Answer)
    ensures r.Count? ==> r.n <= |lines|
  {
    PartOneOf(ParseAll(lines))
  }

  /** `part_two` on parsed lines: `tuples()` takes three lines, and their
      three column triangles are tested before the next three are taken;
      one or two lines at the end are still parsed, and then dropped. */
  function PartTwoOf(ps: seq<Parsed>): (r: Answer)
    ensures r.Count? ==> r.n <= |ps|
    decreases |ps|
  {
    if ps == [] then Count(0)
    else if !ps[0].Ok? then Abort(LinePanic(ps[0]))
    else if |ps| == 1 then Count(0)
    else if !ps[1].Ok? then Abort(LinePanic(ps[1]))
    else if |ps| == 2 then Count(0)
    else if !ps[2].Ok? then Abort(LinePanic(ps[2]))
    else Tally(Group(ps[0].sides, ps[1].sides, ps[2].sides), PartTwoOf(ps[3..]))
  }

  function PartTwo(lines: seq<string>): (r: Answer)
    ensures r.Count? ==> r.n <= |lines|
  {
    PartTwoOf(ParseAll(lines))
  }

  /** Tally counts the triangles of ts on top of the rest, unless one of
      them overflows. */
  lemma {:induction false} TallyCounts(ts: seq<Triangle>, rest: Answer)
    ensures Tally(ts, rest).Count? <==> AllInRange(ts) && rest.Count?
    ensures Tally(ts, rest).Count? ==> Tally(ts, rest).n == CountTriangles(ts) + rest.n
  {
    if ts != [] {
      assert forall i :: 1 <= i < |ts| ==> ts[i] == ts[1..][i - 1];
      TallyCounts(ts[1..], rest);
    }
  }

  /** `part_one` prints the number of lines whose sides form a triangle, and
      does so exactly when every line has three values in range. */
  lemma {:induction false} PartOneCounts(lines: seq<string>)
    ensures var rows := Rows(ParseAll(lines));
      PartOne(lines).Count? <==> rows.Some? && AllInRange(Across(rows.value))
    ensures var rows := Rows(ParseAll(lines));
      PartOne(lines).Count? ==> PartOne(lines).n == CountTriangles(Across(rows.value))
  {
    PartOneOfCounts(ParseAll(lines));
  }

  lemma {:induction false} PartOneOfCounts(ps: seq<Parsed>)
    ensures PartOneOf(ps).Count? <==> Rows(ps).Some? && AllInRange(Across(Rows(ps).value))
    ensures PartOneOf(ps).Count? ==> PartOneOf(ps).n == CountTriangles(Across(Rows(ps).value))
  {
    if ps != [] {
      PartOneOfCounts(ps[1..]);
      if ps[0].Ok? {
        var t := AsTriangle(ps[0].sides);
        TallyCounts([t], PartOneOf(ps[1..]));
        if Rows(ps).Some? {
          var rows := Rows(ps).value;
          assert rows == [ps[0].sides] + rows[1..];
          assert Rows(ps[1..]).value == rows[1..];
          assert Across(rows) == [t] + Across(rows[1..]);
        }
      }
    }
  }

  /** Counting a concatenation adds the counts. */
  lemma {:induction false} CountAppend(a: seq<Triangle>, b: seq<Triangle>)
    requires AllInRange(a) && AllInRange(b)
    ensures AllInRange(a + b) && CountTriangles(a + b) == CountTriangles(a) + CountTriangles(b)
  {
    if a == [] {
      assert a + b == b;
    } else {
      assert (a + b)[1..] == a[1..] + b;
      assert AllInRange(a[1..]) by {
        assert forall i :: 1 <= i < |a| ==> a[i] == a[1..][i - 1];
      }
      CountAppend(a[1..], b);
    }
  }

  lemma InRangeAppend(a: seq<Triangle>, b: seq<Triangle>)
    ensures AllInRange(a + b) <==> AllInRange(a) && AllInRange(b)
  {
    if AllInRange(a) && AllInRange(b) {
      forall i | 0 <= i < |a + b|
        ensures InRange((a + b)[i])
      {
        if i < |a| { assert (a + b)[i] == a[i]; } else { assert (a + b)[i] == b[i - |a|]; }
      }
    }
    if AllInRange(a + b) {
      assert forall i :: 0 <= i < |a| ==> (a + b)[i] == a[i];
      assert forall i :: 0 <= i < |b| ==> (a + b)[|a| + i] == b[i];
    }
  }

  /** `part_two` prints the number of column triangles, and does so exactly
      when every line has three values and every column triangle is in
      range. */
  lemma {:induction false} PartTwoCounts(lines: seq<string>)
    ensures var rows := Rows(ParseAll(lines));
      PartTwo(lines).Count? <==> rows.Some? && AllInRange(Columns(rows.value))
    ensures var rows := Rows(ParseAll(lines));
      PartTwo(lines).Count? ==> PartTwo(lines).n == CountTriangles(Columns(rows.value))
  {
    PartTwoOfCounts(ParseAll(lines));
  }

  lemma {:induction false} PartTwoOfCounts(ps: seq<Parsed>)
    ensures PartTwoOf(ps).Count? <==> Rows(ps).Some? && AllInRange(Columns(Rows(ps).value))
    ensures PartTwoOf(ps).Count? ==> PartTwoOf(ps).n == CountTriangles(Columns(Rows(ps).value))
    decreases |ps|
  {
    if |ps| >= 3 && ps[0].Ok? && ps[1].Ok? && ps[2].Ok? {
      PartTwoOfCounts(ps[3..]);
      var g := Group(ps[0].sides, ps[1].sides, ps[2].sides);
      TallyCounts(g, PartTwoOf(ps[3..]));
      RowsDropGroup(ps);
      if Rows(ps).Some? {
        var tail := Columns(Rows(ps[3..]).value);
        ColumnsOfGroup(ps[0].sides, ps[1].sides, ps[2].sides, Rows(ps[3..]).value);
        InRangeAppend(g, tail);
        if AllInRange(g) && AllInRange(tail) {
          CountAppend(g, tail);
        }
      }
    } else if |ps| < 3 && Rows(ps).Some? {
      assert Columns(Rows(ps).value) == [];
    }
  }

  /** Three parsed lines in front of the rest add their rows in front. */
  lemma RowsDropGroup(ps: seq<Parsed>)
    requires |ps| >= 3 && ps[0].Ok? && ps[1].Ok? && ps[2].Ok?
    ensures Rows(ps).Some? <==> Rows(ps[3..]).Some?
    ensures Rows(ps).Some? ==>
      Rows(ps).value == [ps[0].sides, ps[1].sides, ps[2].sides] + Rows(ps[3..]).value
  {
    assert forall i :: 3 <= i < |ps| ==> ps[i] == ps[3..][i - 3];
    if Rows(ps).Some? {
      var rows := Rows(ps).value;
      assert rows == [ps[0].sides, ps[1].sides, ps[2].sides] + Rows(ps[3..]).value;
    }
  }

  lemma ColumnsOfGroup(r0: Row, r1: Row, r2: Row, rest: seq<Row>)
    ensures Columns([r0, r1, r2] + rest) == Group(r0, r1, r2) + Columns(rest)
  {
    var rows := [r0, r1, r2] + rest;
    assert rows[3..] == rest;
  }
}
