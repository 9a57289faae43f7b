/** Room codes: an encrypted name of dash-separated segments, a sector number
    and a five-letter checksum in brackets, "aaaaa-bbb-z-y-x-123[abxyz]". A
    code is real when the checksum is the five most common letters of the
    name, and the name is decrypted by a Caesar shift by the sector number. */
module RoomCodes {
  import opened Tally
  import opened Decimal

  type Counts = map<char, nat>

  function Min(a: nat, b: nat): nat {
    if a <= b then a else b
  }

  // ---------------------------------------------------------------------
  // The checksum order

  /** a comes before b in a checksum: more occurrences first, and among equal
      counts the smaller char first. */
  predicate Before(counts: Counts, a: char, b: char)
    requires a in counts && b in counts
  {
    counts[a] > counts[b] || (counts[a] == counts[b] && a < b)
  }

  /** s lists keys of counts in strictly increasing checksum order (so each
      key at most once). */
  predicate Ranked(counts: Counts, s: string) {
    (forall i :: 0 <= i < |s| ==> s[i] in counts) &&
    (forall i, j :: 0 <= i < j < |s| ==> Before(counts, s[i], s[j]))
  }

  /** r is the checksum of counts: at most five keys in checksum order, and
      every key left out comes after all of them, which can only happen when
      there are five of them. */
  predicate IsKey(counts: Counts, r: string) {
    Ranked(counts, r) && |r| <= 5 &&
    forall c :: c in counts && c !in r ==>
      |r| == 5 && forall i :: 0 <= i < |r| ==> Before(counts, r[i], c)
  }

  /** Before is a strict total order on the keys of counts. */
  lemma BeforeOrder(counts: Counts, a: char, b: char)
    requires a in counts && b in counts
    ensures a != b ==> Before(counts, a, b) || Before(counts, b, a)
    ensures !(Before(counts, a, b) && Before(counts, b, a))
  {
  }

  /** The i-th char of a checksum is the first, in checksum order, of the keys
      not already listed before it. */
  lemma KeyAtIsLeast(counts: Counts, r: string, i: nat, c: char)
    requires IsKey(counts, r) && i < |r|
    requires c in counts && c !in r[..i]
    ensures c == r[i] || Before(counts, r[i], c)
  {
    if c in r {
      var j :| 0 <= j < |r| && r[j] == c;
      assert forall q :: 0 <= q < i ==> r[q] == r[..i][q];
      assert i <= j;
    }
  }

  /** No char of a ranked list occurs earlier in it. */
  lemma RankedFresh(counts: Counts, r: string, i: nat)
    requires Ranked(counts, r) && i < |r|
    ensures r[i] !in r[..i]
  {
    forall q | 0 <= q < i
      ensures r[..i][q] != r[i]
    {
      assert Before(counts, r[q], r[i]);
    }
  }

  /** Two checksums of the same counts agree on every prefix. */
  lemma {:induction false} KeyPrefix(counts: Counts, r1: string, r2: string, i: nat)
    requires IsKey(counts, r1) && IsKey(counts, r2)
    requires i <= |r1| && i <= |r2|
    ensures r1[..i] == r2[..i]
  {
    if i > 0 {
      KeyPrefix(counts, r1, r2, i - 1);
      var a, b := r1[i - 1], r2[i - 1];
      RankedFresh(counts, r1, i - 1);
      RankedFresh(counts, r2, i - 1);
      KeyAtIsLeast(counts, r1, i - 1, b);
      KeyAtIsLeast(counts, r2, i - 1, a);
      BeforeOrder(counts, a, b);
      assert a == b;
      assert r1[..i] == r1[..i - 1] + [a];
      assert r2[..i] == r2[..i - 1] + [b];
    }
  }

  /** The checksum is determined by the counts alone, so the order in which a
      hash map hands out its entries does not matter. */
  lemma KeyUnique(counts: Counts, r1: string, r2: string)
    requires IsKey(counts, r1) && IsKey(counts, r2)
    ensures r1 == r2
  {
    KeyLength(counts, r1, r2);
    KeyLength(counts, r2, r1);
    KeyPrefix(counts, r1, r2, |r1|);
  }

  /** A checksum is at least as long as any other checksum of the same
      counts: the next char of a longer one would be a key left out of the
      shorter one, which therefore has five chars already. */
  lemma KeyLength(counts: Counts, r1: string, r2: string)
    requires IsKey(counts, r1) && IsKey(counts, r2)
    ensures |r2| <= |r1|
  {
    var n := Min(|r1|, |r2|);
    KeyPrefix(counts, r1, r2, n);
    if n < |r2| {
      NextIsLeftOut(counts, r1, r2);
    }
  }

  /** When a ranked list extends r, its next char is not in r. */
  lemma NextIsLeftOut(counts: Counts, r: string, s: string)
    requires Ranked(counts, s) && |r| < |s| && s[..|r|] == r
    ensures s[|r|] in counts && s[|r|] !in r
  {
    RankedFresh(counts, s, |r|);
  }

  /** The first five entries of all the keys in checksum order are the
      checksum. */
  lemma TopFiveIsKey(counts: Counts, sorted: string)
    requires Ranked(counts, sorted)
    requires forall c :: c in counts ==> c in sorted
    ensures IsKey(counts, sorted[..Min(5, |sorted|)])
  {
    var r := sorted[..Min(5, |sorted|)];
    forall c | c in counts && c !in r
      ensures |r| == 5 && forall i :: 0 <= i < |r| ==> Before(counts, r[i], c)
    {
      var j :| 0 <= j < |sorted| && sorted[j] == c;
      assert forall q :: 0 <= q < |r| ==> r[q] == sorted[q];
      assert |r| <= j;
    }
  }

  /** Inserting c at the first position whose entry does not come before it
      keeps a ranked list ranked. */
  lemma InsertRanked(counts: Counts, s: string, p: nat, c: char)
    requires Ranked(counts, s) && c in counts && c !in s && p <= |s|
    requires forall q :: 0 <= q < p ==> Before(counts, s[q], c)
    requires p < |s| ==> !Before(counts, s[p], c)
    ensures Ranked(counts, s[..p] + [c] + s[p..])
  {
    var t := s[..p] + [c] + s[p..];
    if p < |s| {
      BeforeOrder(counts, s[p], c);
      assert s[p] != c;
    }
    forall i, j | 0 <= i < j < |t|
      ensures Before(counts, t[i], t[j])
    {
      if i < p && j > p {
        assert t[j] == s[j - 1];
      } else if i == p {
        assert t[j] == s[j - 1];
        if j - 1 > p {
          assert Before(counts, s[p], s[j - 1]);
        }
      } else if i > p {
        assert t[i] == s[i - 1] && t[j] == s[j - 1];
      }
    }
  }

  /** The sort of the checksum: an insertion sort by checksum order. */
  method SortByRank(counts: Counts, entries: string) returns (sorted: string)
    requires forall i :: 0 <= i < |entries| ==> entries[i] in counts
    requires forall i, j :: 0 <= i < j < |entries| ==> entries[i] != entries[j]
    ensures Ranked(counts, sorted)
    ensures forall c :: c in sorted <==> c in entries
  {
    sorted := [];
    for i := 0 to |entries|
      invariant Ranked(counts, sorted)
      invariant forall c :: c in sorted <==> c in entries[..i]
    {
      var c := entries[i];
      assert forall q :: 0 <= q < i ==> entries[..i][q] == entries[q] != c;
      var p := 0;
      while p < |sorted| && Before(counts, sorted[p], c)
        invariant 0 <= p <= |sorted|
        invariant forall q :: 0 <= q < p ==> Before(counts, sorted[q], c)
      {
        p := p + 1;
      }
      InsertRanked(counts, sorted, p, c);
      assert entries[..i + 1] == entries[..i] + [c];
      sorted := sorted[..p] + [c] + sorted[p..];
    }
    assert entries[..|entries|] == entries;
  }

  // ---------------------------------------------------------------------
  // The counter

  /** A char-frequency counter over a hash map. */
  class Counter {
    var counts: Counts

    constructor()
      ensures counts == map[]
    {
      counts := map[];
    }

    /** The entry of ch is created at 0 and incremented. */
    method AddChar(ch: char)
      modifies this
      ensures counts == Bump(old(counts), ch)
      ensures counts.Keys == old(counts).Keys + {ch}
      ensures counts[ch] == (if ch in old(counts) then old(counts)[ch] else 0) + 1
      ensures forall d :: d in old(counts) && d != ch ==> counts[d] == old(counts)[d]
    {
      var n := if ch in counts then counts[ch] else 0;
      counts := counts[ch := n + 1];
    }

    /** The checksum: the entries, in whatever order the map gives them,
        sorted by checksum order, and the chars of the first five. */
    method Key() returns (k: string)
      ensures IsKey(counts, k)
    {
      var entries: string := [];
      var rest := counts.Keys;
      while rest != {}
        invariant rest <= counts.Keys
        invariant forall i :: 0 <= i < |entries| ==> entries[i] in counts && entries[i] !in rest
        invariant forall i, j :: 0 <= i < j < |entries| ==> entries[i] != entries[j]
        invariant forall c :: c in counts ==> c in entries || c in rest
        decreases |rest|
      {
        var c :| c in rest;
        entries := entries + [c];
        rest := rest - {c};
      }
      var sorted := SortByRank(counts, entries);
      TopFiveIsKey(counts, sorted);
      k := sorted[..Min(5, |sorted|)];
    }
  }

  /** The counter test: 'a' twice, then 'b', gives a:2 and b:1. */
  lemma AddCharExample()
    ensures Bump(Bump(Bump(map[], 'a'), 'a'), 'b') == map['a' := 2, 'b' := 1]
  {
  }

  // ---------------------------------------------------------------------
  // Splitting and joining on a separator

  /** The first position of c in s, as `str::find`. */
  function Find(s: string, c: char): (r: Option<nat>)
    ensures r.Some? ==> r.value < |s| && s[r.value] == c && c !in s[..r.value]
    ensures r.None? ==> c !in s
  {
    if s == [] then None
    else if s[0] == c then Some(0)
    else match Find(s[1..], c)
      case None => None
      case Some(i) =>
        assert s[..i + 1] == [s[0]] + s[1..][..i];
        Some(i + 1)
  }

  /** The segments between the separators, as `str::split`: always at least
      one, none holding the separator, and they join back to s. */
  function Split(s: string, sep: char): (parts: seq<string>)
    ensures |parts| >= 1
    ensures forall i :: 0 <= i < |parts| ==> sep !in parts[i]
    ensures Join(parts, sep) == s
    decreases |s|
  {
    match Find(s, sep)
      case None => [s]
      case Some(i) =>
        var rest := Split(s[i + 1..], sep);
        assert s == s[..i] + [sep] + s[i + 1..];
        [s[..i]] + rest
  }

  /** The segments with one separator between each two, as `intersperse` and
      `collect`. */
  function Join(parts: seq<string>, sep: char): (s: string)
  {
    if parts == [] then []
    else if |parts| == 1 then parts[0]
    else parts[0] + [sep] + Join(parts[1..], sep)
  }

  /** Joining two non-empty lists of parts joins their joins. */
  lemma {:induction false} JoinAppend(xs: seq<string>, ys: seq<string>, sep: char)
    requires xs != [] && ys != []
    ensures Join(xs + ys, sep) == Join(xs, sep) + [sep] + Join(ys, sep)
  {
    if |xs| > 1 {
      JoinAppend(xs[1..], ys, sep);
      assert (xs + ys)[1..] == xs[1..] + ys;
    } else {
      assert (xs + ys)[1..] == ys;
    }
  }

  lemma JoinCons(p: string, rest: seq<string>, sep: char)
    requires rest != []
    ensures Join([p] + rest, sep) == p + [sep] + Join(rest, sep)
  {
    assert ([p] + rest)[1..] == rest;
  }

  lemma FindAfter(a: string, c: char, b: string)
    requires c !in a
    ensures Find(a + [c] + b, c) == Some(|a|)
  {
    var s := a + [c] + b;
    assert s[|a|] == c;
    assert forall q :: 0 <= q < |a| ==> s[q] == a[q];
  }

  /** Joining segments that do not hold the separator and splitting again
      gives the segments back. */
  lemma {:induction false} SplitJoin(parts: seq<string>, sep: char)
    requires |parts| >= 1
    requires forall i :: 0 <= i < |parts| ==> sep !in parts[i]
    ensures Split(Join(parts, sep), sep) == parts
    decreases |parts|
  {
    if |parts| > 1 {
      var s := Join(parts, sep);
      var tail := Join(parts[1..], sep);
      FindAfter(parts[0], sep, tail);
      assert s[..|parts[0]|] == parts[0];
      assert s[|parts[0]| + 1..] == tail;
      SplitJoin(parts[1..], sep);
      assert parts == [parts[0]] + parts[1..];
    } else {
      assert Find(parts[0], sep) == None;
    }
  }

  // ---------------------------------------------------------------------
  // Room codes

  /** A parsed room code; the sector is a `u32`. */
  datatype RoomCode = RoomCode(name: seq<string>, sector: nat, key: string)
  {
    /** All the chars of the name, segment after segment. */
    function Letters(): string {
      Flatten(name)
    }

    /** The code is real: its key is the checksum of its name's letters. */
    predicate IsReal() {
      IsKey(Frequencies(Letters()), key)
    }

    /** The checksum of the name: every char of every segment is counted. */
    method ComputeKey() returns (k: string)
      ensures IsKey(Frequencies(Letters()), k)
    {
      var letters := Letters();
      var counter := new Counter();
      for i := 0 to |letters|
        invariant counter.counts == Frequencies(letters[..i])
      {
        counter.AddChar(letters[i]);
        FrequenciesAppend(letters[..i], letters[i]);
        assert letters[..i + 1] == letters[..i] + [letters[i]];
      }
      assert letters[..|letters|] == letters;
      k := counter.Key();
    }

    /** A code is valid exactly when it is real. */
    method ValidCode() returns (b: bool)
      ensures b <==> IsReal()
    {
      var k := ComputeKey();
      b := k == key;
      if IsReal() {
        KeyUnique(Frequencies(Letters()), k, key);
      }
    }

    /** The name can be decrypted without a `u32` underflow: no char of it
        comes before 'a'. */
    predicate Decryptable() {
      forall i :: 0 <= i < |name| ==> AllFromA(name[i])
    }

    /** The decrypted name: every segment shifted by the sector modulo 26,
        segments separated by single spaces. */
    function Decrypt(): (s: string)
      requires Decryptable()
      ensures |name| >= 1 ==> Split(s, ' ') == DecryptedSegments()
    {
      var parts := DecryptedSegments();
      if |name| >= 1 then
        SplitJoin(parts, ' ');
        Join(parts, ' ')
      else
        Join(parts, ' ')
    }

    /** The segments of the name, each shifted by the sector modulo 26: each
        keeps its length and holds only lowercase letters. */
    function DecryptedSegments(): (parts: seq<string>)
      requires Decryptable()
      ensures |parts| == |name|
      ensures forall i :: 0 <= i < |parts| ==> |parts[i]| == |name[i]| && AllLower(parts[i])
    {
      seq(|name|, i requires 0 <= i < |name| => ShiftText(name[i], sector % 26))
    }
  }

  /** The segments one after the other, as `flat_map`. */
  function Flatten(parts: seq<string>): string {
    if parts == [] then [] else parts[0] + Flatten(parts[1..])
  }

  // ---------------------------------------------------------------------
  // Parsing

  datatype Parsed = Ok(code: RoomCode) | Err(msg: string)

  /** `RoomCode::from_str`. The text is split on '-'; the last segment holds
      the sector and key, the others are the name. The first '[' and the
      first ']' of the last segment must exist, in that order of checks, and
      the text before '[' must be a `u32`; the key is the text between them
      and anything after ']' is ignored. `split` always gives a segment, so
      the empty string fails at the missing '['. */
  function FromStr(s: string): (r: Parsed)
    ensures r.Ok? ==> r.code.sector <= U32_MAX
    ensures r.Ok? ==> forall i :: 0 <= i < |r.code.name| ==> '-' !in r.code.name[i]
    ensures r.Ok? ==> '-' !in r.code.key && ']' !in r.code.key
  {
    var segments := Split(s, '-');
    var sectorKey := segments[|segments| - 1];
    var name := segments[..|segments| - 1];
    match Find(sectorKey, '[')
      case None => Err("missing '['")
      case Some(j) =>
        match Find(sectorKey, ']')
          case None => Err("missing ']'")
          case Some(k) =>
            match ParseU32(sectorKey[..j])
              case None => Err("not an integer sector code")
              case Some(sector) =>
                SectorBeforeKey(sectorKey, j, k);
                var key := sectorKey[j + 1..k];
                assert forall c :: c in key ==> c in sectorKey;
                Ok(RoomCode(name, sector, key))
  }

  /** The last '-'-separated segment of a text: where the sector and key
      are read from. */
  function LastSegment(s: string): (t: string)
    ensures '-' !in t
  {
    var segments := Split(s, '-');
    segments[|segments| - 1]
  }

  /** The parse fails exactly when the last segment has no '[', or no ']',
      or the text before its '[' is not a `u32`, with one message for each,
      checked in that order. */
  lemma FromStrErrors(s: string)
    ensures var t := LastSegment(s);
      (FromStr(s) == Err("missing '['") <==> Find(t, '[').None?) &&
      (FromStr(s) == Err("missing ']'") <==> Find(t, '[').Some? && Find(t, ']').None?) &&
      (FromStr(s) == Err("not an integer sector code") <==>
        Find(t, '[').Some? && Find(t, ']').Some? && ParseU32(t[..Find(t, '[').value]).None?) &&
      (FromStr(s).Err? <==>
        Find(t, '[').None? || Find(t, ']').None? || ParseU32(t[..Find(t, '[').value]).None?)
  {
  }

  /** Once the text before the first '[' parses as a number, the first ']'
      comes after the '[', so the key slice cannot panic. */
  lemma SectorBeforeKey(t: string, j: nat, k: nat)
    requires Find(t, '[') == Some(j) && Find(t, ']') == Some(k)
    requires ParseU32(t[..j]).Some?
    ensures j + 1 <= k
  {
    assert forall q :: 0 <= q < j ==> t[q] == t[..j][q] != ']';
  }

  /** The text of a room code, the sector spelled in decimal. */
  function Format(code: RoomCode): string {
    Join(code.name + [Show(code.sector) + "[" + code.key + "]"], '-')
  }

  predicate WellFormed(code: RoomCode) {
    code.sector <= U32_MAX &&
    (forall i :: 0 <= i < |code.name| ==> '-' !in code.name[i]) &&
    '-' !in code.key && '[' !in code.key && ']' !in code.key
  }

  /** Formatting a well-formed code and parsing it back gives the code. */
  lemma ParseFormat(code: RoomCode)
    requires WellFormed(code)
    ensures FromStr(Format(code)) == Ok(code)
  {
    var digits := Show(code.sector);
    var last := digits + "[" + code.key + "]";
    var parts := code.name + [last];
    assert '[' !in digits && '-' !in digits && ']' !in digits by {
      assert AllDigits(digits);
    }
    assert '-' !in last;
    forall i | 0 <= i < |parts|
      ensures '-' !in parts[i]
    {
      if i < |code.name| {
        assert parts[i] == code.name[i];
      }
    }
    SplitJoin(parts, '-');
    FindAfter(digits, '[', code.key + "]");
    assert last == digits + ['['] + (code.key + "]");
    assert last == (digits + "[" + code.key) + [']'] + [];
    FindAfter(digits + "[" + code.key, ']', []);
    assert last[..|digits|] == digits;
    assert last[|digits| + 1..|digits| + 1 + |code.key|] == code.key;
    ParseShowRoundTrip(code.sector);
    assert parts[..|parts| - 1] == code.name;
  }

  // ---------------------------------------------------------------------
  // Decryption

  predicate AllFromA(t: string) {
    forall i :: 0 <= i < |t| ==> 'a' <= t[i]
  }

  predicate AllLower(t: string) {
    forall i :: 0 <= i < |t| ==> 'a' <= t[i] <= 'z'
  }

  /** `Chars::decrypt` on one char: its distance from 'a' plus the offset,
      modulo 26, from 'a', in `u32` arithmetic that must not underflow or
      overflow. */
  function Shift(c: char, offset: nat): (d: char)
    requires 'a' <= c && (c as int - 'a' as int) + offset <= U32_MAX
    ensures 'a' <= d <= 'z'
  {
    (((c as int - 'a' as int) + offset) % 26 + 'a' as int) as char
  }

  /** Shifting a lowercase letter by k and then by 26 - k gives it back. */
  lemma ShiftInverse(c: char, k: nat)
    requires 'a' <= c <= 'z' && k <= 26
    ensures Shift(Shift(c, k), 26 - k) == c
  {
    var x := c as int - 'a' as int;
    var y := (x + k) % 26;
    assert Shift(c, k) as int - 'a' as int == y;
    assert (y + (26 - k)) % 26 == x by {
      if x + k < 26 {
        assert y == x + k;
        assert y + 26 - k == x + 26;
      } else {
        assert y == x + k - 26;
      }
    }
  }

  /** Shifting moves a letter forward through the alphabet, cyclically. */
  lemma ShiftCycle(c: char, k: nat)
    requires 'a' <= c <= 'z' && k < 26
    ensures c as int + k <= 'z' as int ==> Shift(c, k) as int == c as int + k
    ensures c as int + k > 'z' as int ==> Shift(c, k) as int == c as int + k - 26
  {
  }

  function ShiftText(t: string, offset: nat): (r: string)
    requires AllFromA(t) && offset < 26
    ensures |r| == |t| && AllLower(r)
    ensures forall i :: 0 <= i < |t| ==> r[i] == Shift(t[i], offset)
  {
    seq(|t|, i requires 0 <= i < |t| => Shift(t[i], offset))
  }

  /** Decrypting by k and then by 26 - k gives lowercase text back. */
  lemma ShiftTextInverse(t: string, k: nat)
    requires AllLower(t) && 0 < k < 26
    ensures ShiftText(ShiftText(t, k), 26 - k) == t
  {
    forall i | 0 <= i < |t|
      ensures ShiftText(ShiftText(t, k), 26 - k)[i] == t[i]
    {
      ShiftInverse(t[i], k);
    }
  }
}
