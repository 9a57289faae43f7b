/** Column histograms: one char counter per column of an eight-column
    message, fed line by line; after each line the message is read off as
    the most common (or the least common) char of every column. */
module Histogram {
  import opened Tally

  type Counts = map<char, nat>

  /** The number of counters, one per column of the message. */
  const WIDTH: nat := 8

  /** c has the largest count: what the first entry of a list sorted by
      descending count is. Among equal counts any of them may come first,
      since the entries are listed in hash-map order. */
  predicate IsTop(counts: Counts, c: char) {
    c in counts && forall d :: d in counts ==> counts[d] <= counts[c]
  }

  /** c has the smallest count. */
  predicate IsBottom(counts: Counts, c: char) {
    c in counts && forall d :: d in counts ==> counts[c] <= counts[d]
  }

  /** A char-frequency counter over a hash map. */
  class Counter {
    var counts: Counts

    constructor()
      ensures counts == map[]
    {
      counts := map[];
    }

    /** The entry of ch is created at 0 and incremented; no other entry
        changes. */
    method AddChar(ch: char)
      modifies this
      ensures counts == Bump(old(counts), ch)
      ensures counts.Keys == old(counts).Keys + {ch}
      ensures counts[ch] == (if ch in old(counts) then old(counts)[ch] else 0) + 1
      ensures forall d :: d in old(counts) && d != ch ==> counts[d] == old(counts)[d]
    {
      var n := if ch in counts then counts[ch] else 0;
      counts := counts[ch := n + 1];
    }

    /** The first entry after sorting by descending count. Only that entry
        is used, so the sort is a pass that keeps the entry with the largest
        count seen so far. An empty counter has no first entry (the index
        panics), hence the precondition. */
    method Top() returns (c: char)
      requires counts != map[]
      ensures IsTop(counts, c)
    {
      var rest := counts.Keys;
      c :| c in rest;
      rest := rest - {c};
      while rest != {}
        invariant rest <= counts.Keys && c in counts
        invariant forall d :: d in counts && d !in rest ==> counts[d] <= counts[c]
        decreases |rest|
      {
        var d :| d in rest;
        if counts[d] > counts[c] {
          c := d;
        }
        rest := rest - {d};
      }
    }

    /** The first entry after sorting by ascending count. */
    method Bottom() returns (c: char)
      requires counts != map[]
      ensures IsBottom(counts, c)
    {
      var rest := counts.Keys;
      c :| c in rest;
      rest := rest - {c};
      while rest != {}
        invariant rest <= counts.Keys && c in counts
        invariant forall d :: d in counts && d !in rest ==> counts[c] <= counts[d]
        decreases |rest|
      {
        var d :| d in rest;
        if counts[d] < counts[c] {
          c := d;
        }
        rest := rest - {d};
      }
    }
  }

  /** The top of the frequencies of a text is a char of the text that occurs
      at least as often as every other char of it. */
  lemma TopOfText(s: string, c: char)
    ensures IsTop(Frequencies(s), c) <==>
      c in s && forall d :: d in s ==> multiset(s)[d] <= multiset(s)[c]
  {
    FrequenciesKeys(s);
    FrequenciesCount(s);
  }

  /** The bottom of the frequencies of a text is a char of the text that
      occurs at most as often as every other char of it. */
  lemma BottomOfText(s: string, c: char)
    ensures IsBottom(Frequencies(s), c) <==>
      c in s && forall d :: d in s ==> multiset(s)[c] <= multiset(s)[d]
  {
    FrequenciesKeys(s);
    FrequenciesCount(s);
  }

  /** Two tops have the same count, and so do two bottoms: the hash-map
      order decides only among chars of equal count. */
  lemma ExtremesAgree(counts: Counts, a: char, b: char)
    ensures IsTop(counts, a) && IsTop(counts, b) ==> counts[a] == counts[b]
    ensures IsBottom(counts, a) && IsBottom(counts, b) ==> counts[a] == counts[b]
  {
  }

  // ---------------------------------------------------------------------
  // Columns

  /** The chars at position i of the lines long enough to have one, in line
      order: what counter i is fed. */
  function Column(lines: seq<string>, i: nat): (col: string)
    ensures |col| <= |lines|
  {
    if lines == [] then []
    else
      var last := lines[|lines| - 1];
      Column(lines[..|lines| - 1], i) + (if i < |last| then [last[i]] else [])
  }

  lemma ColumnAppend(lines: seq<string>, line: string, i: nat)
    ensures Column(lines + [line], i) == Column(lines, i) + (if i < |line| then [line[i]] else [])
  {
    assert (lines + [line])[..|lines|] == lines;
  }

  /** The char at position i of line k is counted in column i. */
  lemma {:induction false} ColumnHas(lines: seq<string>, i: nat, k: nat)
    requires k < |lines| && i < |lines[k]|
    ensures lines[k][i] in Column(lines, i)
  {
    var init, last := lines[..|lines| - 1], lines[|lines| - 1];
    assert lines == init + [last];
    ColumnAppend(init, last, i);
    if k < |init| {
      assert init[k] == lines[k];
      ColumnHas(init, i, k);
    }
  }

  /** Every char of column i is at position i of some line. */
  lemma {:induction false} ColumnFrom(lines: seq<string>, i: nat, c: char)
    requires c in Column(lines, i)
    ensures exists k :: 0 <= k < |lines| && i < |lines[k]| && lines[k][i] == c
  {
    var init, last := lines[..|lines| - 1], lines[|lines| - 1];
    assert lines == init + [last];
    ColumnAppend(init, last, i);
    if c in Column(init, i) {
      ColumnFrom(init, i, c);
      var k :| 0 <= k < |init| && i < |init[k]| && init[k][i] == c;
      assert lines[k] == init[k];
    } else {
      assert lines[|lines| - 1][i] == c;
    }
  }

  /** Every char at position i of a line is counted in column i, and
      column i holds nothing else. */
  lemma ColumnChars(lines: seq<string>, i: nat, c: char)
    ensures c in Column(lines, i) <==> exists k :: 0 <= k < |lines| && i < |lines[k]| && lines[k][i] == c
  {
    if c in Column(lines, i) {
      ColumnFrom(lines, i, c);
    }
    if exists k :: 0 <= k < |lines| && i < |lines[k]| && lines[k][i] == c {
      var k :| 0 <= k < |lines| && i < |lines[k]| && lines[k][i] == c;
      ColumnHas(lines, i, k);
    }
  }

  /** Feeds one line: the char at position i goes to counter i and to no
      other. A line longer than the number of counters indexes past the
      end of the vector and panics, hence the precondition. */
  method AddLine(cs: seq<Counter>, line: string)
    requires |line| <= |cs|
    requires forall i, j :: 0 <= i < j < |cs| ==> cs[i] != cs[j]
    modifies set i | 0 <= i < |cs| :: cs[i]
    ensures forall i :: 0 <= i < |cs| ==>
      cs[i].counts == if i < |line| then Bump(old(cs[i].counts), line[i]) else old(cs[i].counts)
  {
    for i := 0 to |line|
      invariant forall j :: 0 <= j < |cs| ==>
        cs[j].counts == if j < i then Bump(old(cs[j].counts), line[j]) else old(cs[j].counts)
    {
      cs[i].AddChar(line[i]);
    }
  }

  /** `(0..8).map(|_| Counter::new())`: n distinct empty counters. */
  method NewCounters(n: nat) returns (cs: seq<Counter>)
    ensures |cs| == n
    ensures forall i :: 0 <= i < n ==> fresh(cs[i]) && cs[i].counts == map[]
    ensures forall i, j :: 0 <= i < j < n ==> cs[i] != cs[j]
  {
    cs := [];
    while |cs| < n
      invariant |cs| <= n
      invariant forall i :: 0 <= i < |cs| ==> fresh(cs[i]) && cs[i].counts == map[]
      invariant forall i, j :: 0 <= i < j < |cs| ==> cs[i] != cs[j]
    {
      var c := new Counter();
      cs := cs + [c];
    }
  }

  /** Counter i holds the frequencies of column i of the lines fed so far. */
  ghost predicate Holds(cs: seq<Counter>, lines: seq<string>)
    reads set i | 0 <= i < |cs| :: cs[i]
  {
    forall i :: 0 <= i < |cs| ==> cs[i].counts == Frequencies(Column(lines, i))
  }

  /** Feeding one more line to counters that hold the columns of the lines
      before it makes them hold the columns of all of them. */
  lemma FeedColumn(counts: Counts, lines: seq<string>, line: string, i: nat)
    requires counts == Frequencies(Column(lines, i))
    ensures (if i < |line| then Bump(counts, line[i]) else counts) == Frequencies(Column(lines + [line], i))
  {
    ColumnAppend(lines, line, i);
    if i < |line| {
      assert Column(lines + [line], i) == Column(lines, i) + [line[i]];
      FrequenciesAppend(Column(lines, i), line[i]);
    } else {
      assert Column(lines + [line], i) == Column(lines, i) + [];
      assert Column(lines, i) + [] == Column(lines, i);
    }
  }

  /** Once the first line has filled every column, no column is empty. */
  lemma FirstLineFills(lines: seq<string>, i: nat)
    requires lines != [] && i < |lines[0]|
    ensures Frequencies(Column(lines, i)) != map[]
  {
    ColumnChars(lines, i, lines[0][i]);
    FrequenciesKeys(Column(lines, i));
    assert lines[0][i] in Frequencies(Column(lines, i));
  }

  /** One pass of a part's loop over the lines: line k is fed to the
      counters, which then hold the columns of lines 0..k, none empty. */
  method FeedLine(cs: seq<Counter>, lines: seq<string>, k: nat)
    requires Readable(lines) && k < |lines| && |cs| == WIDTH
    requires forall i, j :: 0 <= i < j < |cs| ==> cs[i] != cs[j]
    requires Holds(cs, lines[..k])
    modifies set i | 0 <= i < |cs| :: cs[i]
    ensures Holds(cs, lines[..k + 1])
    ensures forall i :: 0 <= i < |cs| ==> cs[i].counts != map[]
  {
    label fed:
    AddLine(cs, lines[k]);
    assert lines[..k + 1] == lines[..k] + [lines[k]];
    forall i | 0 <= i < WIDTH
      ensures cs[i].counts == Frequencies(Column(lines[..k + 1], i)) && cs[i].counts != map[]
    {
      FeedColumn(old@fed(cs[i].counts), lines[..k], lines[k], i);
      FirstLineFills(lines[..k + 1], i);
    }
  }

  /** The message of the most common chars, one per counter. */
  method Tops(cs: seq<Counter>) returns (msg: string)
    requires forall i :: 0 <= i < |cs| ==> cs[i].counts != map[]
    ensures |msg| == |cs|
    ensures forall i :: 0 <= i < |cs| ==> IsTop(cs[i].counts, msg[i])
  {
    msg := [];
    for i := 0 to |cs|
      invariant |msg| == i
      invariant forall j :: 0 <= j < i ==> IsTop(cs[j].counts, msg[j])
    {
      var c := cs[i].Top();
      msg := msg + [c];
    }
  }

  /** The message of the least common chars, one per counter. */
  method Bottoms(cs: seq<Counter>) returns (msg: string)
    requires forall i :: 0 <= i < |cs| ==> cs[i].counts != map[]
    ensures |msg| == |cs|
    ensures forall i :: 0 <= i < |cs| ==> IsBottom(cs[i].counts, msg[i])
  {
    msg := [];
    for i := 0 to |cs|
      invariant |msg| == i
      invariant forall j :: 0 <= j < i ==> IsBottom(cs[j].counts, msg[j])
    {
      var c := cs[i].Bottom();
      msg := msg + [c];
    }
  }

  /** A message of WIDTH chars whose char i is a most common char of
      column i of the lines. */
  predicate TopMessage(msg: string, lines: seq<string>) {
    |msg| == WIDTH && forall i :: 0 <= i < WIDTH ==> IsTop(Frequencies(Column(lines, i)), msg[i])
  }

  /** A message of WIDTH chars whose char i is a least common char of
      column i of the lines. */
  predicate BottomMessage(msg: string, lines: seq<string>) {
    |msg| == WIDTH && forall i :: 0 <= i < WIDTH ==> IsBottom(Frequencies(Column(lines, i)), msg[i])
  }

  /** Message q of `out` is a top message of lines 0..q, for every q. */
  predicate TopMessages(out: seq<string>, lines: seq<string>) {
    |out| <= |lines| && forall q :: 0 <= q < |out| ==> TopMessage(out[q], lines[..q + 1])
  }

  /** A message for the next line extends the messages of the lines
      before it. */
  lemma TopMessageAppend(out: seq<string>, msg: string, lines: seq<string>)
    requires |out| < |lines| && TopMessages(out, lines)
    requires TopMessage(msg, lines[..|out| + 1])
    ensures TopMessages(out + [msg], lines)
  {
    forall q | 0 <= q < |out| + 1
      ensures TopMessage((out + [msg])[q], lines[..q + 1])
    {
      if q < |out| {
        assert (out + [msg])[q] == out[q];
      }
    }
  }

  /** Message q of `out` is a bottom message of lines 0..q, for every q. */
  predicate BottomMessages(out: seq<string>, lines: seq<string>) {
    |out| <= |lines| && forall q :: 0 <= q < |out| ==> BottomMessage(out[q], lines[..q + 1])
  }

  /** A message for the next line extends the messages of the lines
      before it. */
  lemma BottomMessageAppend(out: seq<string>, msg: string, lines: seq<string>)
    requires |out| < |lines| && BottomMessages(out, lines)
    requires BottomMessage(msg, lines[..|out| + 1])
    ensures BottomMessages(out + [msg], lines)
  {
    forall q | 0 <= q < |out| + 1
      ensures BottomMessage((out + [msg])[q], lines[..q + 1])
    {
      if q < |out| {
        assert (out + [msg])[q] == out[q];
      }
    }
  }

  /** Feeds line k and reads off the message of the most common chars. */
  method ReadTops(cs: seq<Counter>, lines: seq<string>, k: nat) returns (msg: string)
    requires Readable(lines) && k < |lines| && |cs| == WIDTH
    requires forall i, j :: 0 <= i < j < |cs| ==> cs[i] != cs[j]
    requires Holds(cs, lines[..k])
    modifies set i | 0 <= i < |cs| :: cs[i]
    ensures Holds(cs, lines[..k + 1])
    ensures TopMessage(msg, lines[..k + 1])
  {
    FeedLine(cs, lines, k);
    msg := Tops(cs);
  }

  /** Feeds line k and reads off the message of the least common chars. */
  method ReadBottoms(cs: seq<Counter>, lines: seq<string>, k: nat) returns (msg: string)
    requires Readable(lines) && k < |lines| && |cs| == WIDTH
    requires forall i, j :: 0 <= i < j < |cs| ==> cs[i] != cs[j]
    requires Holds(cs, lines[..k])
    modifies set i | 0 <= i < |cs| :: cs[i]
    ensures Holds(cs, lines[..k + 1])
    ensures BottomMessage(msg, lines[..k + 1])
  {
    FeedLine(cs, lines, k);
    msg := Bottoms(cs);
  }

  /** The lines a part accepts: none longer than the counters, and a first
      line that fills all of them, since the message is read off after the
      first line already and an empty counter panics. */
  predicate Readable(lines: seq<string>) {
    (forall k :: 0 <= k < |lines| ==> |lines[k]| <= WIDTH) &&
    (lines != [] ==> |lines[0]| == WIDTH)
  }

  /** `part_one`: after line k the message printed has, in each column,
      a most common char of that column over lines 0..k. */
  method PartOne(lines: seq<string>) returns (out: seq<string>)
    requires Readable(lines)
    ensures |out| == |lines|
    ensures forall k :: 0 <= k < |lines| ==> TopMessage(out[k], lines[..k + 1])
  {
    var cs := NewCounters(WIDTH);
    out := [];
    for k := 0 to |lines|
      invariant Holds(cs, lines[..k])
      invariant |out| == k
      invariant TopMessages(out, lines)
    {
      var msg := ReadTops(cs, lines, k);
      TopMessageAppend(out, msg, lines);
      out := out + [msg];
    }
  }

  /** `part_two`: the same with a least common char of each column. */
  method PartTwo(lines: seq<string>) returns (out: seq<string>)
    requires Readable(lines)
    ensures |out| == |lines|
    ensures forall k :: 0 <= k < |lines| ==> BottomMessage(out[k], lines[..k + 1])
  {
    var cs := NewCounters(WIDTH);
    out := [];
    for k := 0 to |lines|
      invariant Holds(cs, lines[..k])
      invariant |out| == k
      invariant BottomMessages(out, lines)
    {
      var msg := ReadBottoms(cs, lines, k);
      BottomMessageAppend(out, msg, lines);
      out := out + [msg];
    }
  }
}
