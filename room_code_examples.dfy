/** The room-code test cases, worked through the model. */
module RoomCodeExamples {
  import opened Tally
  import opened Decimal
  import opened RoomCodes

  /** Counts c:2, a:2, b:4 have the checksum "bac", and no other. */
  lemma KeyExampleBac(k: string)
    requires IsKey(map['c' := 2, 'a' := 2, 'b' := 4], k)
    ensures k == "bac"
  {
    var counts := map['c' := 2, 'a' := 2, 'b' := 4];
    assert IsKey(counts, "bac");
    KeyUnique(counts, k, "bac");
  }

  /** The key test's eight `add_char` calls leave c:2, a:2, b:4. */
  lemma KeyTestCounts()
    ensures Bump(Bump(Bump(Bump(Bump(Bump(Bump(Bump(map[], 'c'), 'a'), 'a'), 'b'), 'b'), 'b'), 'c'), 'b')
         == map['c' := 2, 'a' := 2, 'b' := 4]
  {
  }

  /** `split` always gives a segment, so the "empty string" error of the
      parser cannot happen: the empty text fails for its missing '['. */
  lemma EmptyText()
    ensures FromStr("") == Err("missing '['")
  {
    assert Split("", '-') == [""];
  }

  lemma FrequenciesAppend3(s: string, a: char, b: char, c: char)
    ensures Frequencies(s + [a, b, c]) == Bump(Bump(Bump(Frequencies(s), a), b), c)
  {
    FrequenciesAppend(s, a);
    FrequenciesAppend(s + [a], b);
    FrequenciesAppend(s + [a] + [b], c);
    assert s + [a] + [b] + [c] == s + [a, b, c];
  }

  lemma FrequenciesAppend4(s: string, a: char, b: char, c: char, d: char)
    ensures Frequencies(s + [a, b, c, d]) == Bump(Bump(Bump(Bump(Frequencies(s), a), b), c), d)
  {
    FrequenciesAppend3(s, a, b, c);
    FrequenciesAppend(s + [a, b, c], d);
    assert s + [a, b, c] + [d] == s + [a, b, c, d];
  }

  // "notarealroom", counted four chars at a time

  const NotA: Counts := map['n' := 1, 'o' := 1, 't' := 1, 'a' := 1]
  const NotAReal: Counts := map['n' := 1, 'o' := 1, 't' := 1, 'a' := 2, 'r' := 1, 'e' := 1, 'l' := 1]
  const NotARealRoom: Counts := map['n' := 1, 'o' := 3, 't' := 1, 'a' := 2, 'r' := 2, 'e' := 1, 'l' := 1, 'm' := 1]

  lemma NotARealStep()
    ensures Bump(Bump(Bump(Bump(NotA, 'r'), 'e'), 'a'), 'l') == NotAReal
  {
  }

  lemma NotARealRoomStep()
    ensures Bump(Bump(Bump(Bump(NotAReal, 'r'), 'o'), 'o'), 'm') == NotARealRoom
  {
  }

  lemma NotARealFrequencies()
    ensures Frequencies("notareal") == NotAReal
  {
    FrequenciesAppend4([], 'n', 'o', 't', 'a');
    assert [] + "nota" == "nota";
    NotARealStep();
    FrequenciesAppend4("nota", 'r', 'e', 'a', 'l');
    assert "nota" + "real" == "notareal";
  }

  lemma NotARealRoomFrequencies()
    ensures Frequencies("notarealroom") == NotARealRoom
  {
    NotARealFrequencies();
    NotARealRoomStep();
    FrequenciesAppend4("notareal", 'r', 'o', 'o', 'm');
    assert "notareal" + "room" == "notarealroom";
  }

  lemma OarelRanked()
    ensures Ranked(NotARealRoom, "oarel")
  {
    var r := "oarel";
    assert r[0] == 'o' && r[1] == 'a' && r[2] == 'r' && r[3] == 'e' && r[4] == 'l';
    assert NotARealRoom['o'] == 3 && NotARealRoom['a'] == 2 && NotARealRoom['r'] == 2;
    assert NotARealRoom['e'] == 1 && NotARealRoom['l'] == 1;
  }

  lemma OarelLeftOut(c: char)
    requires c in NotARealRoom && c !in "oarel"
    ensures NotARealRoom[c] == 1 && 'l' < c
  {
  }

  lemma OarelIsKey()
    ensures IsKey(NotARealRoom, "oarel")
  {
    var r := "oarel";
    OarelRanked();
    forall c | c in NotARealRoom && c !in r
      ensures |r| == 5 && forall i :: 0 <= i < |r| ==> Before(NotARealRoom, r[i], c)
    {
      OarelLeftOut(c);
      assert NotARealRoom['o'] == 3 && NotARealRoom['a'] == 2 && NotARealRoom['r'] == 2;
      assert NotARealRoom['e'] == 1 && NotARealRoom['l'] == 1;
    }
  }

  /** The chars of "notarealroom" have the checksum "oarel", and no other. */
  lemma KeyExampleOarel(k: string)
    requires IsKey(Frequencies("notarealroom"), k)
    ensures k == "oarel"
  {
    NotARealRoomFrequencies();
    OarelIsKey();
    KeyUnique(NotARealRoom, k, "oarel");
  }

  // The validity test cases

  const Abxyz := RoomCode(["aaaaa", "bbb", "z", "y", "x"], 123, "abxyz")
  const Abcde := RoomCode(["a", "b", "c", "d", "e", "f", "g", "h"], 987, "abcde")
  const Oarel := RoomCode(["not", "a", "real", "room"], 404, "oarel")
  const Decoy := RoomCode(["totally", "real", "room"], 200, "decoy")

  lemma AbxyzLetters()
    ensures Abxyz.Letters() == "aaaaabbbzyx"
  {
    var n := Abxyz.name;
    assert n[1..] == ["bbb", "z", "y", "x"];
    assert n[1..][1..] == ["z", "y", "x"];
    assert n[1..][1..][1..] == ["y", "x"];
    assert n[1..][1..][1..][1..] == ["x"];
  }

  lemma AbcdeLetters()
    ensures Abcde.Letters() == "abcdefgh"
  {
    var n := Abcde.name;
    assert n[1..] == ["b", "c", "d", "e", "f", "g", "h"];
    assert n[1..][1..] == ["c", "d", "e", "f", "g", "h"];
    assert n[1..][1..][1..] == ["d", "e", "f", "g", "h"];
    assert n[1..][1..][1..][1..] == ["e", "f", "g", "h"];
    assert n[1..][1..][1..][1..][1..] == ["f", "g", "h"];
    assert n[1..][1..][1..][1..][1..][1..] == ["g", "h"];
    assert n[1..][1..][1..][1..][1..][1..][1..] == ["h"];
  }

  lemma OarelLetters()
    ensures Oarel.Letters() == "notarealroom"
  {
    var n := Oarel.name;
    assert n[1..] == ["a", "real", "room"];
    assert n[1..][1..] == ["real", "room"];
    assert n[1..][1..][1..] == ["room"];
  }

  lemma DecoyLetters()
    ensures Decoy.Letters() == "totallyrealroom"
  {
    var n := Decoy.name;
    assert n[1..] == ["real", "room"];
    assert n[1..][1..] == ["room"];
  }

  const Aaaa: Counts := map['a' := 4]
  const Aaaaabbb: Counts := map['a' := 5, 'b' := 3]
  const Aaaaabbbzyx: Counts := map['a' := 5, 'b' := 3, 'z' := 1, 'y' := 1, 'x' := 1]

  lemma AaaaabbbStep()
    ensures Bump(Bump(Bump(Bump(Aaaa, 'a'), 'b'), 'b'), 'b') == Aaaaabbb
  {
  }

  lemma AaaaabbbzyxStep()
    ensures Bump(Bump(Bump(Aaaaabbb, 'z'), 'y'), 'x') == Aaaaabbbzyx
  {
  }

  lemma AaaaFrequencies()
    ensures Frequencies("aaaa") == Aaaa
  {
    FrequenciesAppend4([], 'a', 'a', 'a', 'a');
    assert [] + "aaaa" == "aaaa";
  }

  lemma AaaaabbbFrequencies()
    ensures Frequencies("aaaaabbb") == Aaaaabbb
  {
    AaaaFrequencies();
    AaaaabbbStep();
    FrequenciesAppend4("aaaa", 'a', 'b', 'b', 'b');
    assert "aaaa" + "abbb" == "aaaaabbb";
  }

  lemma AaaaabbbzyxFrequencies()
    ensures Frequencies("aaaaabbbzyx") == Aaaaabbbzyx
  {
    AaaaabbbFrequencies();
    AaaaabbbzyxStep();
    FrequenciesAppend3("aaaaabbb", 'z', 'y', 'x');
    assert "aaaaabbb" + "zyx" == "aaaaabbbzyx";
  }

  lemma AbxyzIsKey()
    ensures IsKey(Aaaaabbbzyx, "abxyz")
  {
    var r := "abxyz";
    assert r[0] == 'a' && r[1] == 'b' && r[2] == 'x' && r[3] == 'y' && r[4] == 'z';
    assert Aaaaabbbzyx['a'] == 5 && Aaaaabbbzyx['b'] == 3;
    assert Aaaaabbbzyx['x'] == 1 && Aaaaabbbzyx['y'] == 1 && Aaaaabbbzyx['z'] == 1;
    assert Ranked(Aaaaabbbzyx, r);
    forall c | c in Aaaaabbbzyx
      ensures c in r
    {
    }
  }

  const Abcd: Counts := map['a' := 1, 'b' := 1, 'c' := 1, 'd' := 1]
  const Abcdefgh: Counts := map['a' := 1, 'b' := 1, 'c' := 1, 'd' := 1, 'e' := 1, 'f' := 1, 'g' := 1, 'h' := 1]

  lemma AbcdefghStep()
    ensures Bump(Bump(Bump(Bump(Abcd, 'e'), 'f'), 'g'), 'h') == Abcdefgh
  {
  }

  lemma AbcdefghFrequencies()
    ensures Frequencies("abcdefgh") == Abcdefgh
  {
    FrequenciesAppend4([], 'a', 'b', 'c', 'd');
    assert [] + "abcd" == "abcd";
    AbcdefghStep();
    FrequenciesAppend4("abcd", 'e', 'f', 'g', 'h');
    assert "abcd" + "efgh" == "abcdefgh";
  }

  lemma AbcdeIsKey()
    ensures IsKey(Abcdefgh, "abcde")
  {
    var r := "abcde";
    assert r[0] == 'a' && r[1] == 'b' && r[2] == 'c' && r[3] == 'd' && r[4] == 'e';
    assert Ranked(Abcdefgh, r);
    forall c | c in Abcdefgh && c !in r
      ensures |r| == 5 && forall i :: 0 <= i < |r| ==> Before(Abcdefgh, r[i], c)
    {
      assert c == 'f' || c == 'g' || c == 'h';
    }
  }

  /** The validity test, first assertion: the text parses to a real code. */
  lemma AbxyzIsReal()
    ensures FromStr("aaaaa-bbb-z-y-x-123[abxyz]") == Ok(Abxyz) && Abxyz.IsReal()
  {
    ParseExample();
    AbxyzLetters();
    AaaaabbbzyxFrequencies();
    AbxyzIsKey();
  }

  /** The validity test, second assertion: the text parses to a real code. */
  lemma AbcdeIsReal()
    ensures FromStr("a-b-c-d-e-f-g-h-987[abcde]") == Ok(Abcde) && Abcde.IsReal()
  {
    AbcdeFormat();
    ParseFormat(Abcde);
    AbcdeLetters();
    AbcdefghFrequencies();
    AbcdeIsKey();
  }

  /** The validity test, third assertion: the text parses to a real code. */
  lemma OarelIsReal()
    ensures FromStr("not-a-real-room-404[oarel]") == Ok(Oarel) && Oarel.IsReal()
  {
    OarelFormat();
    ParseFormat(Oarel);
    OarelLetters();
    NotARealRoomFrequencies();
    OarelIsKey();
  }

  /** The validity test, last assertion: the text parses to a code that is
      not real, since its name has no 'd'. */
  lemma DecoyIsNotReal()
    ensures FromStr("totally-real-room-200[decoy]") == Ok(Decoy) && !Decoy.IsReal()
  {
    DecoyFormat();
    ParseFormat(Decoy);
    DecoyLetters();
    NoDInDecoy();
    assert "decoy"[0] == 'd';
  }

  lemma NoDInDecoy()
    ensures 'd' !in Frequencies("totallyrealroom")
  {
    FrequenciesKeys("totallyrealroom");
  }

  // Parsing and decryption

  lemma ShowExamples()
    ensures Show(123) == "123" && Show(343) == "343"
  {
  }

  lemma Join3(a: string, b: string, c: string, sep: char)
    ensures Join([a, b, c], sep) == a + [sep] + b + [sep] + c
  {
    JoinCons(b, [c], sep);
    assert [b] + [c] == [b, c];
    JoinCons(a, [b, c], sep);
    assert [a] + [b, c] == [a, b, c];
  }

  lemma Join4(a: string, b: string, c: string, d: string, sep: char)
    ensures Join([a, b, c, d], sep) == a + [sep] + b + [sep] + c + [sep] + d
  {
    Join3(b, c, d, sep);
    JoinCons(a, [b, c, d], sep);
    assert [a] + [b, c, d] == [a, b, c, d];
  }

  lemma Join6(a: string, b: string, c: string, d: string, e: string, f: string, sep: char)
    ensures Join([a, b, c, d, e, f], sep) == a + [sep] + b + [sep] + c + [sep] + d + [sep] + e + [sep] + f
  {
    Join3(d, e, f, sep);
    JoinCons(c, [d, e, f], sep);
    assert [c] + [d, e, f] == [c, d, e, f];
    JoinCons(b, [c, d, e, f], sep);
    assert [b] + [c, d, e, f] == [b, c, d, e, f];
    JoinCons(a, [b, c, d, e, f], sep);
    assert [a] + [b, c, d, e, f] == [a, b, c, d, e, f];
  }

  lemma AbxyzFormat()
    ensures Format(Abxyz) == "aaaaa-bbb-z-y-x-123[abxyz]"
  {
    ShowExamples();
    var last := "123[abxyz]";
    assert Show(123) + "[" + "abxyz" + "]" == last;
    assert Abxyz.name + [last] == ["aaaaa", "bbb", "z", "y", "x", last];
    Join6("aaaaa", "bbb", "z", "y", "x", last, '-');
  }

  lemma AbcdName()
    ensures Join(["a", "b", "c", "d"], '-') == "a-b-c-d"
  {
    Join4("a", "b", "c", "d", '-');
  }

  lemma EfghName()
    ensures Join(["e", "f", "g", "h"], '-') == "e-f-g-h"
  {
    Join4("e", "f", "g", "h", '-');
  }

  lemma AbcdeName()
    ensures Join(["a", "b", "c", "d", "e", "f", "g", "h"], '-') == "a-b-c-d-e-f-g-h"
  {
    AbcdName();
    EfghName();
    JoinAppend(["a", "b", "c", "d"], ["e", "f", "g", "h"], '-');
    assert ["a", "b", "c", "d"] + ["e", "f", "g", "h"] == ["a", "b", "c", "d", "e", "f", "g", "h"];
  }

  /** A code's text is its joined name, a '-', its sector, and its key in
      brackets. */
  lemma FormatOf(code: RoomCode, name: string, digits: string)
    requires code.name != [] && Join(code.name, '-') == name && Show(code.sector) == digits
    ensures Format(code) == name + "-" + digits + "[" + code.key + "]"
  {
    JoinAppend(code.name, [digits + "[" + code.key + "]"], '-');
  }

  lemma AbcdeFormat()
    ensures Format(Abcde) == "a-b-c-d-e-f-g-h-987[abcde]"
  {
    AbcdeName();
    FormatOf(Abcde, "a-b-c-d-e-f-g-h", "987");
  }

  lemma OarelFormat()
    ensures Format(Oarel) == "not-a-real-room-404[oarel]"
  {
    Join4("not", "a", "real", "room", '-');
    FormatOf(Oarel, "not-a-real-room", "404");
  }

  lemma DecoyFormat()
    ensures Format(Decoy) == "totally-real-room-200[decoy]"
  {
    Join3("totally", "real", "room", '-');
    FormatOf(Decoy, "totally-real-room", "200");
  }

  /** The parse test: the first code's text parses to key "abxyz", sector 123
      and five name segments. */
  lemma ParseExample()
    ensures FromStr("aaaaa-bbb-z-y-x-123[abxyz]") == Ok(Abxyz)
  {
    AbxyzFormat();
    ParseFormat(Abxyz);
  }

  const Encrypted := RoomCode(["qzmt", "zixmtkozy", "ivhz"], 343, "xxx")

  lemma EncryptedLast()
    ensures Show(Encrypted.sector) + "[" + Encrypted.key + "]" == "343[xxx]"
  {
    ShowExamples();
  }

  lemma EncryptedFormat()
    ensures Format(Encrypted) == "qzmt-zixmtkozy-ivhz-343[xxx]"
  {
    EncryptedLast();
    var last := "343[xxx]";
    assert Encrypted.name + [last] == ["qzmt", "zixmtkozy", "ivhz", last];
    Join4("qzmt", "zixmtkozy", "ivhz", last, '-');
  }

  lemma ShiftVery()
    ensures ShiftText("qzmt", 5) == "very"
  {
  }

  lemma ShiftEncrypted()
    ensures ShiftText("zixmtkozy", 5) == "encrypted"
  {
  }

  lemma ShiftName()
    ensures ShiftText("ivhz", 5) == "name"
  {
  }

  lemma EncryptedSegments()
    ensures Encrypted.Decryptable()
    ensures Encrypted.DecryptedSegments() == ["very", "encrypted", "name"]
  {
    assert 343 % 26 == 5;
    ShiftVery();
    ShiftEncrypted();
    ShiftName();
  }

  /** The decryption test, first half: "qzmt-zixmtkozy-ivhz-343[xxx]" parses
      to a code with sector 343 and the three name segments. */
  lemma ParseEncrypted()
    ensures FromStr("qzmt-zixmtkozy-ivhz-343[xxx]") == Ok(Encrypted)
  {
    EncryptedFormat();
    ParseFormat(Encrypted);
  }

  /** The decryption test, second half: that name decrypts to "very
      encrypted name". */
  lemma DecryptExample()
    ensures Encrypted.Decryptable() && Encrypted.Decrypt() == "very encrypted name"
  {
    EncryptedSegments();
    Join3("very", "encrypted", "name", ' ');
  }
}
