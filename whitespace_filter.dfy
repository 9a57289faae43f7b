/** The whitespace-filtering reader of the day 9 solver: a `Read` adapter over
    an in-memory `Cursor` that hands out runs of non-whitespace bytes. */
module WhitespaceFilter {

  type byte = b: int | 0 <= b < 256

  /** Exactly ASCII space (0x20) and newline (0x0A) count as whitespace;
      tab and carriage return do not. */
  predicate IsWhitespace(c: byte)
    ensures IsWhitespace(c) ==> c != 0x09 && c != 0x0B && c != 0x0C && c != 0x0D
  {
    c == 0x20 || c == 0x0A
  }

  predicate AllWhitespace(s: seq<byte>) {
    forall i :: 0 <= i < |s| ==> IsWhitespace(s[i])
  }

  predicate NoWhitespace(s: seq<byte>) {
    forall i :: 0 <= i < |s| ==> !IsWhitespace(s[i])
  }

  function Min(a: nat, b: nat): nat {
    if a <= b then a else b
  }

  /** The input after n more bytes are consumed; like a `Cursor`, consuming
      past the end leaves nothing. */
  function Drop(s: seq<byte>, n: nat): (r: seq<byte>)
    ensures |r| == |s| - Min(n, |s|)
  {
    s[Min(n, |s|)..]
  }

  lemma DropDrop(s: seq<byte>, m: nat, n: nat)
    ensures Drop(Drop(s, m), n) == Drop(s, m + n)
  {
  }

  /** The length of the leading run of whitespace. */
  function LeadingWhitespace(s: seq<byte>): (k: nat)
    ensures k <= |s|
    ensures k < |s| ==> !IsWhitespace(s[k])
  {
    if s == [] || !IsWhitespace(s[0]) then 0 else 1 + LeadingWhitespace(s[1..])
  }

  /** LeadingWhitespace(s) is the one k whose prefix is all whitespace and
      which stops at the end or at a non-whitespace byte. */
  lemma {:induction false} LeadingWhitespaceIs(s: seq<byte>, k: nat)
    requires k <= |s|
    ensures (forall i :: 0 <= i < k ==> IsWhitespace(s[i])) && (k < |s| ==> !IsWhitespace(s[k]))
            <==> LeadingWhitespace(s) == k
    decreases k
  {
    if s != [] && IsWhitespace(s[0]) && k > 0 {
      LeadingWhitespaceIs(s[1..], k - 1);
    }
  }

  /** The length of the leading run of non-whitespace: the position of the
      first whitespace byte, or the whole length when there is none. */
  function WordLength(s: seq<byte>): (k: nat)
    ensures k <= |s|
    ensures k < |s| ==> IsWhitespace(s[k])
  {
    if s == [] || IsWhitespace(s[0]) then 0 else 1 + WordLength(s[1..])
  }

  /** WordLength(s) is the one k whose prefix holds no whitespace and which
      stops at the end or at a whitespace byte. */
  lemma {:induction false} WordLengthIs(s: seq<byte>, k: nat)
    requires k <= |s|
    ensures (forall i :: 0 <= i < k ==> !IsWhitespace(s[i])) && (k < |s| ==> IsWhitespace(s[k]))
            <==> WordLength(s) == k
    decreases k
  {
    if s != [] && !IsWhitespace(s[0]) && k > 0 {
      WordLengthIs(s[1..], k - 1);
    }
  }

  /** The input with every space and newline removed: the reference meaning
      of the filter. */
  function Strip(s: seq<byte>): seq<byte>
  {
    if s == [] then [] else (if IsWhitespace(s[0]) then [] else [s[0]]) + Strip(s[1..])
  }

  lemma {:induction false} StripAppend(a: seq<byte>, b: seq<byte>)
    ensures Strip(a + b) == Strip(a) + Strip(b)
    decreases |a|
  {
    if a != [] {
      var head := if IsWhitespace(a[0]) then [] else [a[0]];
      assert (a + b)[0] == a[0];
      assert (a + b)[1..] == a[1..] + b;
      StripAppend(a[1..], b);
      assert Strip(a + b) == head + (Strip(a[1..]) + Strip(b));
      assert Strip(a) == head + Strip(a[1..]);
    } else {
      assert a + b == b;
    }
  }

  lemma {:induction false} StripAllWhitespace(s: seq<byte>)
    requires AllWhitespace(s)
    ensures Strip(s) == []
    decreases |s|
  {
    if s != [] {
      StripAllWhitespace(s[1..]);
    }
  }

  lemma {:induction false} StripWord(s: seq<byte>)
    requires NoWhitespace(s)
    ensures Strip(s) == s
    decreases |s|
  {
    if s != [] {
      StripWord(s[1..]);
    }
  }

  /** Strip, split at position k of s. */
  lemma StripSplit(s: seq<byte>, k: nat)
    requires k <= |s|
    ensures Strip(s) == Strip(s[..k]) + Strip(s[k..])
  {
    assert s == s[..k] + s[k..];
    StripAppend(s[..k], s[k..]);
  }

  /** The bytes left for copying once the leading whitespace is skipped. */
  function AfterSpaces(rest: seq<byte>): seq<byte> {
    rest[LeadingWhitespace(rest)..]
  }

  /** The count one read returns when `rest` remains and the caller's buffer
      holds `cap` bytes. */
  function ReadSize(rest: seq<byte>, cap: nat): nat {
    Min(WordLength(AfterSpaces(rest)), cap)
  }

  /** A read returns zero exactly when the caller's buffer is empty or the rest
      of the input is empty or all whitespace. */
  lemma ReadSizeZero(rest: seq<byte>, cap: nat)
    ensures ReadSize(rest, cap) == 0 <==> cap == 0 || AllWhitespace(rest)
  {
    var k := LeadingWhitespace(rest);
    if !AllWhitespace(rest) {
      var i :| 0 <= i < |rest| && !IsWhitespace(rest[i]);
      LeadingWhitespaceIs(rest, k);
      assert k <= i;
    }
  }

  /** What a read copies holds no whitespace. */
  lemma ReadCopiesWord(rest: seq<byte>, cap: nat)
    ensures NoWhitespace(AfterSpaces(rest)[..ReadSize(rest, cap)])
  {
    var word := AfterSpaces(rest);
    WordLengthIs(word, WordLength(word));
  }

  /** What repeated reads into a `chunk`-byte buffer deliver from `rest`, up
      to the first read that returns zero. Each read consumes one byte more
      than it copies. */
  function Drain(rest: seq<byte>, chunk: nat): seq<byte>
    decreases |rest|
  {
    var size := ReadSize(rest, chunk);
    if size == 0 then [] else AfterSpaces(rest)[..size] + Drain(Drop(AfterSpaces(rest), size + 1), chunk)
  }

  /** Drain ends at the first read that copies nothing. */
  lemma DrainAfterLastRead(rest: seq<byte>, chunk: nat, done: seq<byte>)
    requires ReadSize(rest, chunk) == 0
    ensures done + Drain(rest, chunk) == done
  {
  }

  /** Drain after one read that copied `copied` and left `next`. */
  lemma DrainAfterRead(rest: seq<byte>, chunk: nat, done: seq<byte>, copied: seq<byte>, next: seq<byte>)
    requires 0 < |copied| == ReadSize(rest, chunk)
    requires copied == AfterSpaces(rest)[..|copied|]
    requires next == Drop(AfterSpaces(rest), |copied| + 1)
    ensures done + Drain(rest, chunk) == (done + copied) + Drain(next, chunk)
  {
  }

  /** No run of non-whitespace bytes in s is longer than n. */
  predicate WordsAtMost(s: seq<byte>, n: nat) {
    forall i :: 0 <= i < |s| ==> WordLength(s[i..]) <= n
  }

  lemma WordsAtMostSuffix(s: seq<byte>, n: nat, m: nat)
    requires WordsAtMost(s, n)
    ensures WordsAtMost(Drop(s, m), n)
  {
    var t := Drop(s, m);
    forall i | 0 <= i < |t| ensures WordLength(t[i..]) <= n {
      assert t[i..] == s[Min(m, |s|) + i..];
    }
  }

  /** Leading whitespace contributes nothing to Strip. */
  lemma {:induction false} StripAfterSpaces(rest: seq<byte>)
    ensures Strip(rest) == Strip(AfterSpaces(rest))
    decreases |rest|
  {
    if rest != [] && IsWhitespace(rest[0]) {
      StripAfterSpaces(rest[1..]);
      assert rest[1..][LeadingWhitespace(rest[1..])..] == rest[LeadingWhitespace(rest)..];
    }
  }

  /** A prefix of the leading word passes through Strip unchanged. */
  lemma {:induction false} StripWordPrefix(word: seq<byte>, n: nat)
    requires n <= WordLength(word)
    ensures Strip(word) == word[..n] + Strip(word[n..])
    decreases n
  {
    if n > 0 {
      StripWordPrefix(word[1..], n - 1);
      assert word[1..][n - 1..] == word[n..];
      assert word[..n] == [word[0]] + word[1..][..n - 1];
    }
  }

  /** A read that copies `size` bytes of `word` and then consumes `advance`
      bytes loses nothing as long as only whitespace is skipped. */
  lemma StripAfterRead(word: seq<byte>, size: nat, advance: nat)
    requires size <= WordLength(word) && (advance == size || advance == size + 1)
    requires advance == size + 1 && size < |word| ==> IsWhitespace(word[size])
    ensures Strip(word) == word[..size] + Strip(Drop(word, advance))
  {
    StripWordPrefix(word, size);
    var tail := word[size..];
    if advance == size + 1 && size < |word| {
      assert tail[0] == word[size];
      assert Strip(tail) == Strip(tail[1..]);
      assert tail[1..] == Drop(word, advance);
    } else {
      assert tail == Drop(word, advance);
    }
  }

  /** When the buffer is at least as long as every run of non-whitespace,
      reading to the end yields the input with its whitespace removed. */
  lemma {:induction false} DrainStrips(rest: seq<byte>, chunk: nat)
    requires WordsAtMost(rest, chunk)
    ensures Drain(rest, chunk) == Strip(rest)
    decreases |rest|
  {
    var k := LeadingWhitespace(rest);
    var word := AfterSpaces(rest);
    var w := WordLength(word);
    StripAfterSpaces(rest);
    if w > 0 {
      assert w <= chunk by {
        assert word == rest[k..];
      }
      StripAfterRead(word, w, w + 1);
      WordsAtMostSuffix(rest, chunk, k + w + 1);
      assert Drop(rest, k + w + 1) == Drop(word, w + 1);
      DrainStrips(Drop(word, w + 1), chunk);
    }
  }

  /** The reads the filter was meant to make: a whitespace byte that stops the
      copy is consumed, but a byte that is not copied because the buffer is
      full is left for the next read. */
  function DrainCorrected(rest: seq<byte>, chunk: nat): seq<byte>
    decreases |rest|
  {
    var word := AfterSpaces(rest);
    var size := Min(WordLength(word), chunk);
    var advance := if size < |word| && IsWhitespace(word[size]) then size + 1 else size;
    if size == 0 then [] else word[..size] + DrainCorrected(Drop(word, advance), chunk)
  }

  /** With the correction, reading in chunks of any positive size yields the
      input with its whitespace removed. */
  lemma {:induction false} DrainCorrectedStrips(rest: seq<byte>, chunk: nat)
    requires chunk > 0
    ensures DrainCorrected(rest, chunk) == Strip(rest)
    decreases |rest|
  {
    var word := AfterSpaces(rest);
    var size := Min(WordLength(word), chunk);
    StripAfterSpaces(rest);
    if size > 0 {
      var advance := if size < |word| && IsWhitespace(word[size]) then size + 1 else size;
      StripAfterRead(word, size, advance);
      DrainCorrectedStrips(Drop(word, advance), chunk);
    }
  }

  /** "abcd" has no whitespace, so Strip keeps it whole and the corrected
      reads deliver it whole. */
  lemma CorrectedKeepsLongWord()
    ensures Strip([0x61, 0x62, 0x63, 0x64]) == [0x61, 0x62, 0x63, 0x64]
    ensures DrainCorrected([0x61, 0x62, 0x63, 0x64], 2) == [0x61, 0x62, 0x63, 0x64]
  {
    StripWord([0x61, 0x62, 0x63, 0x64]);
    DrainCorrectedStrips([0x61, 0x62, 0x63, 0x64], 2);
  }

  /** Through a 2-byte buffer, the word "abcd" reads back as "abd": the first
      read copies "ab" and consumes "c" as well. */
  lemma DrainDropsByteAtBufferLimit()
    ensures Drain([0x61, 0x62, 0x63, 0x64], 2) == [0x61, 0x62, 0x64]
  {
    var s := [0x61, 0x62, 0x63, 0x64];
    assert AfterSpaces(s) == s;
    assert WordLength(s) >= 2 by {
      assert WordLength(s[1..]) >= 1;
    }
    var next := [s[3]];
    assert Drop(s, 3) == next;
    DrainAfterRead(s, 2, [], s[..2], next);
    assert AfterSpaces(next) == next;
    assert ReadSize(next, 2) == 1;
    DrainAfterRead(next, 2, s[..2], next, []);
    DrainAfterLastRead([], 2, s[..2] + next);
    assert s[..2] + next == [0x61, 0x62, 0x64];
  }

  lemma AppendAssoc(a: seq<byte>, b: seq<byte>, c: seq<byte>)
    ensures (a + b) + c == a + (b + c)
  {
  }

  /** The position of the first whitespace byte of buf, or |buf| when there
      is none (the `position` search of `read`). */
  method FindWhitespace(buf: seq<byte>) returns (p: nat)
    ensures p == WordLength(buf)
  {
    p := 0;
    while p < |buf| && !IsWhitespace(buf[p])
      invariant p <= |buf|
      invariant forall i :: 0 <= i < p ==> !IsWhitespace(buf[i])
    {
      p := p + 1;
    }
    WordLengthIs(buf, p);
  }

  /** Copies the first n bytes of buf to the front of outbuf. */
  method CopyInto(buf: seq<byte>, outbuf: array<byte>, n: nat)
    requires n <= |buf| && n <= outbuf.Length
    modifies outbuf
    ensures outbuf[..n] == buf[..n]
    ensures outbuf[n..] == old(outbuf[n..])
  {
    var i := 0;
    while i < n
      invariant i <= n
      invariant outbuf[..i] == buf[..i]
      invariant outbuf[n..] == old(outbuf[n..])
    {
      outbuf[i] := buf[i];
      assert outbuf[..i + 1] == buf[..i + 1] by {
        assert forall j :: 0 <= j < i ==> outbuf[..i + 1][j] == outbuf[..i][j];
      }
      i := i + 1;
    }
  }

  /** A `FilterSpace` over a `Cursor`: the cursor's bytes never change and its
      position only grows. */
  class FilterSpace {
    const data: seq<byte>
    var pos: nat

    constructor (data: seq<byte>)
      ensures this.data == data && pos == 0
    {
      this.data := data;
      pos := 0;
    }

    /** What the cursor's `fill_buf` shows: everything after the position. */
    function Remaining(): seq<byte>
      reads this
    {
      Drop(data, pos)
    }

    /** The cursor's `consume`. */
    method Consume(n: nat)
      modifies this
      ensures pos == old(pos) + n
      ensures Remaining() == Drop(old(Remaining()), n)
    {
      DropDrop(data, pos, n);
      pos := pos + n;
    }

    /** Skips the leading whitespace of the buffered input and no more. */
    method SkipSpaces()
      modifies this
      ensures pos == old(pos) + LeadingWhitespace(old(Remaining()))
      ensures Remaining() == AfterSpaces(old(Remaining()))
    {
      var buf := Remaining();
      var size := 0;
      while size < |buf| && IsWhitespace(buf[size])
        invariant size <= |buf|
        invariant forall i :: 0 <= i < size ==> IsWhitespace(buf[i])
      {
        size := size + 1;
      }
      LeadingWhitespaceIs(buf, size);
      Consume(size);
    }

    /** One `read`: skip whitespace, copy up to the next whitespace or the end
        of `outbuf`, then consume the copied bytes and one more. */
    method Read(outbuf: array<byte>) returns (size: nat)
      modifies this, outbuf
      ensures size == ReadSize(old(Remaining()), outbuf.Length)
      ensures size <= outbuf.Length
      ensures outbuf[..size] == AfterSpaces(old(Remaining()))[..size]
      ensures NoWhitespace(outbuf[..size])
      ensures outbuf[size..] == old(outbuf[size..])
      ensures pos == old(pos) + LeadingWhitespace(old(Remaining())) + size + 1
      ensures Remaining() == Drop(AfterSpaces(old(Remaining())), size + 1)
      ensures size == 0 <==> outbuf.Length == 0 || AllWhitespace(old(Remaining()))
    {
      ReadSizeZero(Remaining(), outbuf.Length);
      ReadCopiesWord(Remaining(), outbuf.Length);
      SkipSpaces();
      var buf := Remaining();
      var p := FindWhitespace(buf);
      if p < |buf| {
        size := Min(p, outbuf.Length);
      } else {
        size := Min(|buf|, outbuf.Length);
      }
      CopyInto(buf, outbuf, size);
      Consume(size + 1);
    }

    /** One round of `read_to_end`: a read into a fresh `chunk`-byte buffer,
        returning what it copied. */
    method ReadChunk(chunk: nat) returns (piece: seq<byte>)
      modifies this
      ensures Drain(old(Remaining()), chunk) == piece + Drain(Remaining(), chunk)
      ensures piece == [] ==> Drain(old(Remaining()), chunk) == []
      ensures piece != [] ==> |Remaining()| < |old(Remaining())|
    {
      var buf := new byte[chunk];
      ghost var rest := Remaining();
      var n := Read(buf);
      piece := buf[..n];
      if n == 0 {
        DrainAfterLastRead(rest, chunk, []);
      } else {
        DrainAfterRead(rest, chunk, [], piece, Remaining());
      }
    }

    /** `read_to_end` with a fixed buffer of `chunk` bytes: read until a read
        returns zero, collecting what each read copied. */
    method ReadToEnd(chunk: nat) returns (out: seq<byte>)
      modifies this
      ensures out == Drain(old(Remaining()), chunk)
    {
      out := [];
      ghost var start := Drain(Remaining(), chunk);
      ghost var todo := start;
      while true
        invariant todo == Drain(Remaining(), chunk)
        invariant out + todo == start
        decreases |Remaining()|
      {
        var piece := ReadChunk(chunk);
        if piece == [] {
          assert todo == [];
          break;
        }
        ghost var after := Drain(Remaining(), chunk);
        assert todo == piece + after;
        AppendAssoc(out, piece, after);
        out := out + piece;
        todo := after;
      }
    }
  }

  /** An input no longer than the buffer has no word longer than the buffer. */
  lemma ShortInputStrips(rest: seq<byte>, chunk: nat)
    requires |rest| <= chunk
    ensures Drain(rest, chunk) == Strip(rest)
  {
    forall i | 0 <= i < |rest| ensures WordLength(rest[i..]) <= chunk {
    }
    DrainStrips(rest, chunk);
  }


  /** A part that Strip removes and then a part it keeps, after a prefix. */
  lemma StripGapWord(a: seq<byte>, sp: seq<byte>, w: seq<byte>)
    requires Strip(sp) == [] && Strip(w) == w
    ensures Strip(a + sp + w) == Strip(a) + w
  {
    StripAppend(a + sp, w);
    StripAppend(a, sp);
  }

  /** Strip of three kept parts with removed parts around and between them
      is the three kept parts joined. */
  lemma StripJoinsWords(sp0: seq<byte>, w1: seq<byte>, sp1: seq<byte>, w2: seq<byte>,
                        sp2: seq<byte>, w3: seq<byte>)
    requires Strip(sp0) == [] && Strip(sp1) == [] && Strip(sp2) == []
    requires Strip(w1) == w1 && Strip(w2) == w2 && Strip(w3) == w3
    ensures Strip(sp0 + w1 + sp1 + w2 + sp2 + w3) == w1 + w2 + w3
  {
    StripAppend(sp0, w1);
    StripGapWord(sp0 + w1, sp1, w2);
    StripGapWord(sp0 + w1 + sp1 + w2, sp2, w3);
  }

  /** Three words with runs of spaces and newlines around and between them,
      as in the inputs "abc def abc", " abc def abc" and " abc def \n   abc",
      read back as the three words joined. */
  lemma FilterJoinsWords(sp0: seq<byte>, w1: seq<byte>, sp1: seq<byte>, w2: seq<byte>,
                         sp2: seq<byte>, w3: seq<byte>, chunk: nat)
    requires AllWhitespace(sp0) && AllWhitespace(sp1) && AllWhitespace(sp2)
    requires NoWhitespace(w1) && NoWhitespace(w2) && NoWhitespace(w3)
    requires |sp0 + w1 + sp1 + w2 + sp2 + w3| <= chunk
    ensures Drain(sp0 + w1 + sp1 + w2 + sp2 + w3, chunk) == w1 + w2 + w3
  {
    StripAllWhitespace(sp0);
    StripAllWhitespace(sp1);
    StripAllWhitespace(sp2);
    StripWord(w1);
    StripWord(w2);
    StripWord(w3);
    StripJoinsWords(sp0, w1, sp1, w2, sp2, w3);
    ShortInputStrips(sp0 + w1 + sp1 + w2 + sp2 + w3, chunk);
  }
}
