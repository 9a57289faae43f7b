/** The addresses of the TLS and SSL tests, decided by recursive scans that
    are proved equal to the checkers' predicates. */
module Ipv7Examples {
  import opened Ipv7

  // ---------------------------------------------------------------------
  // Scans

  /** Some ABBA ends at an index from i on. */
  predicate AbbaFrom(b: seq<byte>, i: nat)
    decreases |b| - i
  {
    i < |b| && (IsAbba(b, i) || AbbaFrom(b, i + 1))
  }

  lemma {:induction false} AbbaFromExists(b: seq<byte>, i: nat)
    ensures AbbaFrom(b, i) <==> exists k :: i <= k < |b| && IsAbba(b, k)
    decreases |b| - i
  {
    if i < |b| {
      AbbaFromExists(b, i + 1);
      if IsAbba(b, i) {
        assert i <= i < |b| && IsAbba(b, i);
      }
    }
  }

  /** Some ABBA ends at an index from i on while the bracket state, tracked
      from start, is inside. */
  predicate InsideAbbaFrom(b: seq<byte>, start: nat, i: nat)
    decreases |b| - i
  {
    i < |b| && ((IsAbba(b, i) && InsideFrom(b, start, i)) || InsideAbbaFrom(b, start, i + 1))
  }

  lemma {:induction false} InsideAbbaFromExists(b: seq<byte>, start: nat, i: nat)
    ensures InsideAbbaFrom(b, start, i) <==>
      exists k :: i <= k < |b| && IsAbba(b, k) && InsideFrom(b, start, k)
    decreases |b| - i
  {
    if i < |b| {
      InsideAbbaFromExists(b, start, i + 1);
      if IsAbba(b, i) && InsideFrom(b, start, i) {
        assert i <= i < |b| && IsAbba(b, i) && InsideFrom(b, start, i);
      }
    }
  }

  lemma TlsScan(b: seq<byte>)
    ensures Tls(b) <==> AbbaFrom(b, 3) && !InsideAbbaFrom(b, 3, 3)
  {
    AbbaFromExists(b, 3);
    InsideAbbaFromExists(b, 3, 3);
  }

  lemma TlsTrackedScan(b: seq<byte>)
    ensures TlsTracked(b) <==> AbbaFrom(b, 3) && !InsideAbbaFrom(b, 0, 3)
  {
    AbbaFromExists(b, 3);
    InsideAbbaFromExists(b, 0, 3);
  }

  /** A match at i has an inverse among the earlier matches. */
  lemma MatchInverseBefore(b: seq<byte>, i: nat)
    requires MatchAt(b, i)
    ensures AnyInverse(MatchesBefore(b, i), MatchOf(b, i)) <==>
      exists j :: 2 <= j < i && MatchAt(b, j) && MatchOf(b, i).IsInverse(MatchOf(b, j))
  {
    var ms, m := MatchesBefore(b, i), MatchOf(b, i);
    if AnyInverse(ms, m) {
      var p :| 0 <= p < |ms| && m.IsInverse(ms[p]);
      assert ms[p] in ms;
      var j :| 2 <= j < i && MatchAt(b, j) && MatchOf(b, j) == ms[p];
    }
    forall j | 2 <= j < i && MatchAt(b, j) && m.IsInverse(MatchOf(b, j))
      ensures AnyInverse(ms, m)
    {
      assert MatchOf(b, j) in ms;
    }
  }

  /** The SSL checker's verdict from index i on. */
  predicate SslFrom(b: seq<byte>, i: nat)
    decreases |b| - i
  {
    i < |b| &&
    ((MatchAt(b, i) && AnyInverse(MatchesBefore(b, i), MatchOf(b, i))) || SslFrom(b, i + 1))
  }

  lemma {:induction false} SslFromExists(b: seq<byte>, i: nat)
    ensures SslFrom(b, i) <==>
      (exists j, k :: 2 <= j < k && i <= k < |b| &&
         MatchAt(b, j) && MatchAt(b, k) && MatchOf(b, k).IsInverse(MatchOf(b, j)))
    decreases |b| - i
  {
    if i < |b| {
      SslFromExists(b, i + 1);
      if MatchAt(b, i) {
        MatchInverseBefore(b, i);
      }
    }
  }

  lemma SslScan(b: seq<byte>)
    ensures Ssl(b) <==> SslFrom(b, 2)
  {
    SslFromExists(b, 2);
  }

  lemma AbaInverseBefore(b: seq<byte>, i: nat)
    requires AbaAt(b, i)
    ensures AnyInverse(AbasBefore(b, i), AbaOf(b, i)) <==>
      exists j :: 2 <= j < i && AbaAt(b, j) && AbaOf(b, i).IsInverse(AbaOf(b, j))
  {
    var ms, m := AbasBefore(b, i), AbaOf(b, i);
    if AnyInverse(ms, m) {
      var p :| 0 <= p < |ms| && m.IsInverse(ms[p]);
      assert ms[p] in ms;
      var j :| 2 <= j < i && AbaAt(b, j) && AbaOf(b, j) == ms[p];
    }
    forall j | 2 <= j < i && AbaAt(b, j) && m.IsInverse(AbaOf(b, j))
      ensures AnyInverse(ms, m)
    {
      assert AbaOf(b, j) in ms;
    }
  }

  /** The corrected SSL checker's verdict from index i on. */
  predicate SslTrackedFrom(b: seq<byte>, i: nat)
    decreases |b| - i
  {
    i < |b| &&
    ((AbaAt(b, i) && AnyInverse(AbasBefore(b, i), AbaOf(b, i))) || SslTrackedFrom(b, i + 1))
  }

  lemma {:induction false} SslTrackedFromExists(b: seq<byte>, i: nat)
    ensures SslTrackedFrom(b, i) <==>
      (exists j, k :: 2 <= j < k && i <= k < |b| &&
         AbaAt(b, j) && AbaAt(b, k) && AbaOf(b, k).IsInverse(AbaOf(b, j)))
    decreases |b| - i
  {
    if i < |b| {
      SslTrackedFromExists(b, i + 1);
      if AbaAt(b, i) {
        AbaInverseBefore(b, i);
      }
    }
  }

  lemma SslTrackedScan(b: seq<byte>)
    ensures SslTracked(b) <==> SslTrackedFrom(b, 2)
  {
    SslTrackedFromExists(b, 2);
  }

  // ---------------------------------------------------------------------
  // TLS tests

  const AbbaMnopQrst: seq<byte> :=
    [0x61, 0x62, 0x62, 0x61, 0x5b, 0x6d, 0x6e, 0x6f, 0x70, 0x5d, 0x71, 0x72, 0x73, 0x74]

  lemma AbbaMnopQrstSupportsTls()
    ensures Tls(AbbaMnopQrst) && TlsTracked(AbbaMnopQrst)
  {
    TlsScan(AbbaMnopQrst);
    TlsAgree(AbbaMnopQrst);
  }

  const AbcdBddbXyyx: seq<byte> :=
    [0x61, 0x62, 0x63, 0x64, 0x5b, 0x62, 0x64, 0x64, 0x62, 0x5d, 0x78, 0x79, 0x79, 0x78]

  /** "bddb" sits inside brackets. */
  lemma AbcdBddbXyyxLacksTls()
    ensures !Tls(AbcdBddbXyyx) && !TlsTracked(AbcdBddbXyyx)
  {
    assert IsAbba(AbcdBddbXyyx, 8) && InsideFrom(AbcdBddbXyyx, 3, 8) && InsideFrom(AbcdBddbXyyx, 0, 8);
  }

  const AaaaQwerTyui: seq<byte> :=
    [0x61, 0x61, 0x61, 0x61, 0x5b, 0x71, 0x77, 0x65, 0x72, 0x5d, 0x74, 0x79, 0x75, 0x69]

  /** "aaaa" is no ABBA: its inner bytes equal its outer ones. */
  lemma AaaaQwerTyuiLacksTls()
    ensures !Tls(AaaaQwerTyui) && !TlsTracked(AaaaQwerTyui)
  {
    AbbaFromExists(AaaaQwerTyui, 3);
  }

  const IoxxojAsdfghZxcvbn: seq<byte> :=
    [0x69, 0x6f, 0x78, 0x78, 0x6f, 0x6a, 0x5b, 0x61, 0x73, 0x64, 0x66, 0x67, 0x68, 0x5d,
     0x7a, 0x78, 0x63, 0x76, 0x62, 0x6e]

  /** "oxxo", ending at index 4, is the only ABBA. */
  lemma IoxxojAsdfghZxcvbnOneAbba()
    ensures forall k :: 3 <= k < |IoxxojAsdfghZxcvbn| && IsAbba(IoxxojAsdfghZxcvbn, k) ==> k == 4
  {
    // one index at a time, from the end
    assert !AbbaFrom(IoxxojAsdfghZxcvbn, 19);
    assert !AbbaFrom(IoxxojAsdfghZxcvbn, 18);
    assert !AbbaFrom(IoxxojAsdfghZxcvbn, 17);
    assert !AbbaFrom(IoxxojAsdfghZxcvbn, 16);
    assert !AbbaFrom(IoxxojAsdfghZxcvbn, 15);
    assert !AbbaFrom(IoxxojAsdfghZxcvbn, 14);
    assert !AbbaFrom(IoxxojAsdfghZxcvbn, 13);
    assert !AbbaFrom(IoxxojAsdfghZxcvbn, 12);
    assert !AbbaFrom(IoxxojAsdfghZxcvbn, 11);
    assert !AbbaFrom(IoxxojAsdfghZxcvbn, 10);
    assert !AbbaFrom(IoxxojAsdfghZxcvbn, 9);
    assert !AbbaFrom(IoxxojAsdfghZxcvbn, 8);
    assert !AbbaFrom(IoxxojAsdfghZxcvbn, 7);
    assert !AbbaFrom(IoxxojAsdfghZxcvbn, 6);
    assert !AbbaFrom(IoxxojAsdfghZxcvbn, 5);
    assert !IsAbba(IoxxojAsdfghZxcvbn, 3);
    AbbaFromExists(IoxxojAsdfghZxcvbn, 5);
  }

  lemma IoxxojAsdfghZxcvbnSupportsTls()
    ensures Tls(IoxxojAsdfghZxcvbn) && TlsTracked(IoxxojAsdfghZxcvbn)
  {
    assert IsAbba(IoxxojAsdfghZxcvbn, 4) && !InsideFrom(IoxxojAsdfghZxcvbn, 3, 4);
    IoxxojAsdfghZxcvbnOneAbba();
    TlsAgree(IoxxojAsdfghZxcvbn);
  }

  // ---------------------------------------------------------------------
  // SSL tests

  const AbaBabXyz: seq<byte> := [0x61, 0x62, 0x61, 0x5b, 0x62, 0x61, 0x62, 0x5d, 0x78, 0x79, 0x7a]

  /** "aba" outside, "bab" inside. */
  lemma AbaBabXyzSupportsSsl()
    ensures Ssl(AbaBabXyz) && SslTracked(AbaBabXyz)
  {
    assert MatchAt(AbaBabXyz, 2) && MatchAt(AbaBabXyz, 6) &&
      MatchOf(AbaBabXyz, 6).IsInverse(MatchOf(AbaBabXyz, 2));
    assert AbaAt(AbaBabXyz, 2) && AbaAt(AbaBabXyz, 6) &&
      AbaOf(AbaBabXyz, 6).IsInverse(AbaOf(AbaBabXyz, 2));
  }

  const XyxXyxXyx: seq<byte> := [0x78, 0x79, 0x78, 0x5b, 0x78, 0x79, 0x78, 0x5d, 0x78, 0x79, 0x78]

  /** Every ABA is "xyx"; none is the inverse of another. */
  lemma XyxXyxXyxLacksSsl()
    ensures !Ssl(XyxXyxXyx) && !SslTracked(XyxXyxXyx)
  {
    SslScan(XyxXyxXyx);
    SslTrackedScan(XyxXyxXyx);
  }

  const AaaKekEke: seq<byte> := [0x61, 0x61, 0x61, 0x5b, 0x6b, 0x65, 0x6b, 0x5d, 0x65, 0x6b, 0x65]

  /** "eke" outside, "kek" inside. */
  lemma AaaKekEkeSupportsSsl()
    ensures Ssl(AaaKekEke) && SslTracked(AaaKekEke)
  {
    assert MatchAt(AaaKekEke, 6) && MatchAt(AaaKekEke, 10) &&
      MatchOf(AaaKekEke, 10).IsInverse(MatchOf(AaaKekEke, 6));
    assert AbaAt(AaaKekEke, 6) && AbaAt(AaaKekEke, 10) &&
      AbaOf(AaaKekEke, 10).IsInverse(AbaOf(AaaKekEke, 6));
  }

  const ZazbzBzbCdb: seq<byte> :=
    [0x7a, 0x61, 0x7a, 0x62, 0x7a, 0x5b, 0x62, 0x7a, 0x62, 0x5d, 0x63, 0x64, 0x62]

  /** "zbz" outside, overlapping "zaz", and "bzb" inside. */
  lemma ZazbzBzbCdbSupportsSsl()
    ensures Ssl(ZazbzBzbCdb) && SslTracked(ZazbzBzbCdb)
  {
    assert MatchAt(ZazbzBzbCdb, 4) && MatchAt(ZazbzBzbCdb, 8) &&
      MatchOf(ZazbzBzbCdb, 8).IsInverse(MatchOf(ZazbzBzbCdb, 4));
    assert AbaAt(ZazbzBzbCdb, 4) && AbaAt(ZazbzBzbCdb, 8) &&
      AbaOf(ZazbzBzbCdb, 8).IsInverse(AbaOf(ZazbzBzbCdb, 4));
  }

  // ---------------------------------------------------------------------
  // Discrepancies of the checkers as written

  const AXyyx: seq<byte> := [0x61, 0x5b, 0x78, 0x79, 0x79, 0x78, 0x5d]

  /** The bracket at index 1 is never tracked, so the ABBA inside it is taken
      for one outside. */
  lemma TlsMissesEarlyBracket()
    ensures Tls(AXyyx) && !TlsTracked(AXyyx)
  {
    TlsScan(AXyyx);
    assert IsAbba(AXyyx, 5) && InsideFrom(AXyyx, 0, 5);
  }

  const AaaAaa: seq<byte> := [0x61, 0x61, 0x61, 0x5b, 0x61, 0x61, 0x61, 0x5d]

  /** "aaa" is accepted as an ABA, and is its own inverse across brackets. */
  lemma SslAcceptsRepeatedByte()
    ensures Ssl(AaaAaa) && !SslTracked(AaaAaa)
  {
    assert MatchAt(AaaAaa, 2) && MatchAt(AaaAaa, 6) &&
      MatchOf(AaaAaa, 6).IsInverse(MatchOf(AaaAaa, 2));
    SslTrackedScan(AaaAaa);
  }

  const BabAba: seq<byte> := [0x5b, 0x62, 0x61, 0x62, 0x5d, 0x61, 0x62, 0x61]

  /** The opening bracket at index 0 is never tracked, so "bab" counts as
      outside like "aba". */
  lemma SslMissesEarlyBracket()
    ensures !Ssl(BabAba) && SslTracked(BabAba)
  {
    SslScan(BabAba);
    assert AbaAt(BabAba, 3) && AbaAt(BabAba, 7) && AbaOf(BabAba, 7).IsInverse(AbaOf(BabAba, 3));
  }
}
