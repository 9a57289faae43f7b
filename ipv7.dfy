/** IPv7 addresses: bytes in which bracketed runs are hypernet sequences.
    An address supports TLS when it has an ABBA (a window "xyyx" with x != y)
    outside brackets and none inside; it supports SSL when an ABA "xyx"
    outside brackets has its BAB "yxy" inside. */
module Ipv7 {

  type byte = b: int | 0 <= b < 256

  const OPEN: byte := 0x5B   // '['
  const CLOSE: byte := 0x5D  // ']'

  /** The effect of one byte on the bracket state. */
  function Track(inside: bool, c: byte): bool {
    if c == OPEN then true else if c == CLOSE then false else inside
  }

  /** The bracket state after the bytes b[start..i], starting outside: the
      last bracket among them decides. */
  function InsideFrom(b: seq<byte>, start: nat, i: nat): bool
    requires i <= start || i <= |b|
    decreases i
  {
    if i <= start then false else Track(InsideFrom(b, start, i - 1), b[i - 1])
  }

  /** When b[start..i] holds a bracket, the state is set by the last one;
      otherwise it is outside. */
  lemma {:induction false} InsideFromLastBracket(b: seq<byte>, start: nat, i: nat)
    requires start <= i <= |b|
    ensures InsideFrom(b, start, i) <==>
      exists k :: start <= k < i && b[k] == OPEN &&
        forall q :: k < q < i ==> b[q] != OPEN && b[q] != CLOSE
    decreases i
  {
    if i > start {
      InsideFromLastBracket(b, start, i - 1);
      if b[i - 1] != OPEN && b[i - 1] != CLOSE {
        if InsideFrom(b, start, i) {
          var k :| start <= k < i - 1 && b[k] == OPEN &&
            forall q :: k < q < i - 1 ==> b[q] != OPEN && b[q] != CLOSE;
          assert forall q :: k < q < i ==> b[q] != OPEN && b[q] != CLOSE;
        }
      }
    }
  }

  /** Two starting points agree from the first index where neither has seen
      a bracket the other has not. */
  lemma {:induction false} InsideFromSkip(b: seq<byte>, start: nat, i: nat)
    requires start <= i <= |b|
    requires forall k :: 0 <= k < start ==> b[k] != OPEN && b[k] != CLOSE
    ensures InsideFrom(b, start, i) == InsideFrom(b, 0, i)
    decreases i
  {
    if i > start {
      InsideFromSkip(b, start, i - 1);
    } else {
      InsideFromClear(b, i);
    }
  }

  lemma {:induction false} InsideFromClear(b: seq<byte>, i: nat)
    requires i <= |b|
    requires forall k :: 0 <= k < i ==> b[k] != OPEN && b[k] != CLOSE
    ensures !InsideFrom(b, 0, i)
    decreases i
  {
    if i > 0 {
      InsideFromClear(b, i - 1);
    }
  }

  // ---------------------------------------------------------------------
  // TLS

  /** The window ending at i is an ABBA: b[i-3..i+1] is "wxyz" with z == w,
      y == x and z != y. */
  predicate IsAbba(b: seq<byte>, i: nat) {
    3 <= i < |b| && b[i] == b[i - 3] && b[i] != b[i - 1] && b[i - 1] == b[i - 2]
  }

  /** TLS as the checker decides it: some ABBA, and no ABBA while the
      bracket state, tracked from index 3 on, is inside. */
  predicate Tls(b: seq<byte>) {
    (exists k :: 3 <= k < |b| && IsAbba(b, k)) &&
    (forall k :: 3 <= k < |b| && IsAbba(b, k) ==> !InsideFrom(b, 3, k))
  }

  /** `is_tls_address`: slides a four-byte window, failing at the first ABBA
      seen inside brackets and remembering whether one was seen outside; the
      bracket state is updated from the window's last byte after the check. */
  method IsTlsAddress(b: seq<byte>) returns (r: bool)
    ensures r == Tls(b)
    ensures |b| < 4 ==> !r
  {
    var inside := false;
    var result := false;
    var i := 3;
    while i < |b|
      invariant 3 <= i && (i <= |b| || i == 3)
      invariant inside == InsideFrom(b, 3, i)
      invariant result <==> exists k :: 3 <= k < i && IsAbba(b, k)
      invariant forall k :: 3 <= k < i && IsAbba(b, k) ==> !InsideFrom(b, 3, k)
    {
      var w, x, y, z := b[i - 3], b[i - 2], b[i - 1], b[i];
      if z == w && z != y && y == x {
        assert IsAbba(b, i);
        if inside {
          return false;
        }
        result := true;
      }
      inside := Track(inside, z);
      i := i + 1;
    }
    return result;
  }

  /** TLS with the bracket state tracked over every byte. */
  predicate TlsTracked(b: seq<byte>) {
    (exists k :: 3 <= k < |b| && IsAbba(b, k)) &&
    (forall k :: 3 <= k < |b| && IsAbba(b, k) ==> !InsideFrom(b, 0, k))
  }

  /** The checker with the bracket state tracked from the first byte, so a
      bracket among the first three bytes is not missed. */
  method IsTlsAddressTracked(b: seq<byte>) returns (r: bool)
    ensures r == TlsTracked(b)
    ensures |b| < 4 ==> !r
  {
    var inside := false;
    var result := false;
    var i := 0;
    while i < |b|
      invariant i <= |b|
      invariant inside == InsideFrom(b, 0, i)
      invariant result <==> exists k :: 3 <= k < i && IsAbba(b, k)
      invariant forall k :: 3 <= k < i && IsAbba(b, k) ==> !InsideFrom(b, 0, k)
    {
      if i >= 3 && b[i] == b[i - 3] && b[i] != b[i - 1] && b[i - 1] == b[i - 2] {
        assert IsAbba(b, i);
        if inside {
          return false;
        }
        result := true;
      }
      inside := Track(inside, b[i]);
      i := i + 1;
    }
    return result;
  }

  /** The two checkers agree unless a bracket sits among the first three
      bytes. */
  lemma TlsAgree(b: seq<byte>)
    requires forall k :: 0 <= k < 3 && k < |b| ==> b[k] != OPEN && b[k] != CLOSE
    ensures Tls(b) == TlsTracked(b)
  {
    forall k | 3 <= k < |b|
      ensures InsideFrom(b, 3, k) == InsideFrom(b, 0, k)
    {
      InsideFromSkip(b, 3, k);
    }
  }

  // ---------------------------------------------------------------------
  // SSL

  /** A candidate ABA or BAB: its outer and middle bytes and whether it was
      seen inside brackets. */
  datatype Match = Match(outer: byte, middle: byte, inside: bool)
  {
    /** other is this one's counterpart: the roles of the two bytes swapped,
        on the other side of the brackets. */
    predicate IsInverse(other: Match)
      ensures IsInverse(other) <==> other == Match(middle, outer, !inside)
    {
      outer == other.middle && middle == other.outer && inside != other.inside
    }
  }

  lemma InverseSymmetric(m: Match, n: Match)
    ensures m.IsInverse(n) <==> n.IsInverse(m)
  {
  }

  /** `iter().any(is_inverse)`: some match of ms is an inverse of m. */
  function AnyInverse(ms: seq<Match>, m: Match): (r: bool)
    ensures r <==> exists i :: 0 <= i < |ms| && m.IsInverse(ms[i])
  {
    if ms == [] then false
    else if m.IsInverse(ms[0]) then true
    else
      assert forall i :: 0 < i < |ms| ==> ms[i] == ms[1..][i - 1];
      AnyInverse(ms[1..], m)
  }

  /** The growing list of matches of the SSL checker. */
  class SslMatches {
    var matches: seq<Match>

    constructor()
      ensures matches == []
    {
      matches := [];
    }

    function ContainsInverse(m: Match): (r: bool)
      reads this
      ensures r <==> exists i :: 0 <= i < |matches| && m.IsInverse(matches[i])
    {
      AnyInverse(matches, m)
    }

    method AddMatch(m: Match)
      modifies this
      ensures matches == old(matches) + [m]
    {
      matches := matches + [m];
    }
  }

  /** The matcher test: a list holding Match(0, 1, false) has an inverse for
      Match(1, 0, true), and the empty list has none. */
  method SslMatchesExample() returns (before: bool, after: bool)
    ensures !before && after
  {
    var matches := new SslMatches();
    var a := Match(0, 1, false);
    before := matches.ContainsInverse(a);
    matches.AddMatch(a);
    after := matches.ContainsInverse(Match(1, 0, true));
    assert matches.matches[0] == a;
  }

  /** The byte at i closes an ABA candidate of the checker: it is not a
      bracket and equals the byte two before it. */
  predicate MatchAt(b: seq<byte>, i: nat) {
    2 <= i < |b| && b[i] != OPEN && b[i] != CLOSE && b[i] == b[i - 2]
  }

  /** The match recorded at i, with the bracket state tracked from index 2. */
  function MatchOf(b: seq<byte>, i: nat): Match
    requires MatchAt(b, i)
  {
    Match(b[i - 2], b[i - 1], InsideFrom(b, 2, i))
  }

  /** SSL as the checker decides it: two candidates, one an inverse of the
      other. */
  predicate Ssl(b: seq<byte>) {
    exists j, k :: 2 <= j < k < |b| && MatchAt(b, j) && MatchAt(b, k) &&
      MatchOf(b, k).IsInverse(MatchOf(b, j))
  }

  /** The matches recorded before index i, in order. */
  function MatchesBefore(b: seq<byte>, i: nat): (ms: seq<Match>)
    requires i <= |b|
    ensures forall m :: m in ms <==> exists j :: 2 <= j < i && MatchAt(b, j) && MatchOf(b, j) == m
  {
    if i <= 2 then []
    else if MatchAt(b, i - 1) then MatchesBefore(b, i - 1) + [MatchOf(b, i - 1)]
    else MatchesBefore(b, i - 1)
  }

  /** `is_ssl_address`: the bracket state follows the brackets from index 2;
      every other byte equal to the one two before it gives a match, and the
      checker succeeds at the first match whose inverse is already listed. */
  method IsSslAddress(b: seq<byte>) returns (r: bool)
    ensures r == Ssl(b)
  {
    var inside := false;
    var matches := new SslMatches();
    var i := 2;
    while i < |b|
      invariant 2 <= i && (i <= |b| || i == 2)
      invariant inside == InsideFrom(b, 2, i)
      invariant i <= |b| ==> matches.matches == MatchesBefore(b, i)
      invariant forall j, k :: 2 <= j < k < i && MatchAt(b, j) && MatchAt(b, k) ==>
        !MatchOf(b, k).IsInverse(MatchOf(b, j))
    {
      var z := b[i];
      if z == OPEN {
        inside := true;
      } else if z == CLOSE {
        inside := false;
      } else {
        var x, y := b[i - 2], b[i - 1];
        if z == x {
          var m := Match(x, y, inside);
          assert m == MatchOf(b, i);
          if matches.ContainsInverse(m) {
            var n :| n in matches.matches && m.IsInverse(n);
            var j :| 2 <= j < i && MatchAt(b, j) && MatchOf(b, j) == n;
            return true;
          }
          forall j | 2 <= j < i && MatchAt(b, j)
            ensures !m.IsInverse(MatchOf(b, j))
          {
            assert MatchOf(b, j) in matches.matches;
          }
          matches.AddMatch(m);
        }
      }
      i := i + 1;
    }
    return false;
  }

  /** The byte at i closes an ABA with two different bytes. */
  predicate AbaAt(b: seq<byte>, i: nat) {
    MatchAt(b, i) && b[i] != b[i - 1]
  }

  function AbaOf(b: seq<byte>, i: nat): Match
    requires AbaAt(b, i)
  {
    Match(b[i - 2], b[i - 1], InsideFrom(b, 0, i))
  }

  /** SSL with different outer and middle bytes and the bracket state
      tracked over every byte. */
  predicate SslTracked(b: seq<byte>) {
    exists j, k :: 2 <= j < k < |b| && AbaAt(b, j) && AbaAt(b, k) &&
      AbaOf(b, k).IsInverse(AbaOf(b, j))
  }

  function AbasBefore(b: seq<byte>, i: nat): (ms: seq<Match>)
    requires i <= |b|
    ensures forall m :: m in ms <==> exists j :: 2 <= j < i && AbaAt(b, j) && AbaOf(b, j) == m
  {
    if i <= 2 then []
    else if AbaAt(b, i - 1) then AbasBefore(b, i - 1) + [AbaOf(b, i - 1)]
    else AbasBefore(b, i - 1)
  }

  /** The SSL checker with both corrections: "aaa" is no ABA, and a bracket
      among the first two bytes is seen. */
  method IsSslAddressTracked(b: seq<byte>) returns (r: bool)
    ensures r == SslTracked(b)
  {
    var inside := false;
    var matches := new SslMatches();
    var i := 0;
    while i < |b|
      invariant i <= |b|
      invariant inside == InsideFrom(b, 0, i)
      invariant matches.matches == AbasBefore(b, i)
      invariant forall j, k :: 2 <= j < k < i && AbaAt(b, j) && AbaAt(b, k) ==>
        !AbaOf(b, k).IsInverse(AbaOf(b, j))
    {
      var z := b[i];
      if z == OPEN {
        inside := true;
      } else if z == CLOSE {
        inside := false;
      } else if i >= 2 && z == b[i - 2] && z != b[i - 1] {
        var m := Match(b[i - 2], b[i - 1], inside);
        assert m == AbaOf(b, i);
        if matches.ContainsInverse(m) {
          var n :| n in matches.matches && m.IsInverse(n);
          var j :| 2 <= j < i && AbaAt(b, j) && AbaOf(b, j) == n;
          return true;
        }
        forall j | 2 <= j < i && AbaAt(b, j)
          ensures !m.IsInverse(AbaOf(b, j))
        {
          assert AbaOf(b, j) in matches.matches;
        }
        matches.AddMatch(m);
      }
      i := i + 1;
    }
    return false;
  }
}
