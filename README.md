# Advent of Code 2016 solvers, modelled in Dafny

This project models the puzzle solvers of an Advent of Code 2016 Rust
repository and proves what they compute. Each solver is one Dafny module:

- `WhitespaceFilter` (day 9): a reader that drops spaces and newlines from
  the bytes of an inner buffered reader.
- `PixelScreen` (day 8): a `w` by `h` screen of bools, stored row-major in one
  flat vector, with rect, row-rotation and column-rotation commands and a
  text rendering.
- `RoomCodes` (day 4): a char counter whose five-letter checksum orders
  letters by count, then alphabetically. It also holds the room-code parser,
  the validity check and the shift-cipher decryption.
- `Ipv7` (day 7): the TLS check (an ABBA outside brackets and none inside)
  and the SSL check (an ABA outside with the matching BAB inside), as
  written and with the bracket tracking corrected.
- `GridWalk` (day 1): a walk on a city grid. Turns and unit steps come from a
  tokenizer and a command parser. Part two finds the first block visited
  twice.
- `GridWalkDraft` (the `day-01` draft): a one-shot `update` by a turn and a
  count of blocks, and the `read_turn` and `read_steps` readers.
- `Triangles` (day 3): a line parser for three whitespace-separated
  integers, the triangle test, and counting by rows or by groups of three
  lines read down the columns.
- `Histogram` (day 6): eight char counters, one per column. After each line,
  the message of most common (or least common) chars is read off.
- `Keypad` (day 2): a finger walking on a 3x3 keypad with clamped `u8`
  arithmetic.

Two shared modules support them:

- `Decimal`: Rust's `u32::from_str` on decimal text, and its inverse `Show`.
- `Tally`: the frequency map of a text. It specifies both `Counter`
  classes.

State that the source changes in place is modelled as Dafny classes:

- `FilterSpace` and its cursor.
- `Display` and its cell array.
- The `Counter`s.
- `SslMatches`.
- `Tokenize` and `Parse`.

Each method is proved against a specification function, and the
properties are lemmas about those functions. Rust panics are modelled in
one of two ways:

- As explicit outcomes (`Panic`, `Abort`, `None`) where the input decides
  them.
- As preconditions where the caller must rule them out.

`u32`, `u8` and `i8` arithmetic is written out where it matters.

## Model

| member | source | states |
|---|---|---|
| Decimal.ParseU32 | src/bin/day01.rs:143 | `u32::from_str`: a result is at most `u32::MAX`; it is the decimal value of the text, which is all digits after an optional leading '+' |
| Decimal.Show | src/bin/day04.rs:92 | decimal spelling of a number: non-empty and all digits |
| Decimal.ValueOfShow | src/bin/day04.rs:92 | the value of the decimal spelling of n is n |
| Decimal.ParseShowRoundTrip | src/bin/day04.rs:92 | parsing the spelling of any n up to `u32::MAX` gives back n |
| Decimal.ParseRejectsOverflow | src/bin/day04.rs:92 | the spelling of a number above `u32::MAX` does not parse |
| Decimal.ParseU32Cases | src/bin/day01.rs:143 | all-digit text parses exactly when its value is at most `u32::MAX`, to that value; a leading '+' before it changes nothing; text that is empty, or neither all digits nor led by '+', does not parse |
| Decimal.ParseExamples | src/bin/day01.rs:143 | "+12" parses as 12; "", "+" and "1a" do not parse |
| Tally.BumpEntries | src/bin/day04.rs:22-25 | counting one char adds it to the keys, sets it to one more than before (1 if new), and leaves every other count unchanged |
| Tally.FrequenciesAppend | src/bin/day06.rs:15-18 | the frequencies of s + [c] are those of s with c counted once more |
| Tally.FrequenciesKeys | src/bin/day06.rs:15-18 | a char has a count exactly when it occurs in the text |
| Tally.FrequenciesCount | src/bin/day04.rs:22-25 | every count is the char's multiplicity in the text |
| WhitespaceFilter.IsWhitespace | src/bin/day09.rs:5-7 | only space and newline are whitespace: tab, vertical tab, form feed and carriage return are not |
| WhitespaceFilter.Drop | src/bin/day09.rs:52 | consuming n bytes leaves the length minus n, never below zero |
| WhitespaceFilter.LeadingWhitespace | src/bin/day09.rs:22-30 | the count of leading whitespace bytes: all bytes before it are whitespace and the next is not |
| WhitespaceFilter.WordLength | src/bin/day09.rs:46-49 | the position of the first whitespace byte, or the length: no whitespace before it |
| WhitespaceFilter.StripAppend | src/bin/day09.rs:5-7 | stripping whitespace distributes over concatenation |
| WhitespaceFilter.ReadSizeZero | src/bin/day09.rs:40-54 | a read returns 0 exactly when the output buffer is empty or only whitespace remains |
| WhitespaceFilter.ReadCopiesWord | src/bin/day09.rs:43-50 | the bytes a read copies contain no whitespace |
| WhitespaceFilter.DrainStrips | src/bin/day09.rs:40-54 | reading to the end yields the input with its whitespace stripped, when no word is longer than the buffer |
| WhitespaceFilter.ShortInputStrips | src/bin/day09.rs:40-54 | reading an input no longer than the buffer to the end strips its whitespace |
| WhitespaceFilter.FilterJoinsWords | src/bin/day09.rs:57-85 | three words with whitespace before and between them read back joined, as the three filter tests expect |
| WhitespaceFilter.DrainDropsByteAtBufferLimit | src/bin/day09.rs:47-52 | as written: "abcd" read through a 2-byte buffer gives "abd", because a byte is consumed past a copy that stopped at the buffer limit |
| WhitespaceFilter.DrainCorrectedStrips | src/bin/day09.rs:40-54 | corrected (skip the byte after the copy only when it is whitespace): reading to the end strips whitespace for every buffer size above zero |
| WhitespaceFilter.CorrectedKeepsLongWord | src/bin/day09.rs:40-54 | the corrected reader keeps "abcd" whole through a 2-byte buffer |
| WhitespaceFilter.FindWhitespace | src/bin/day09.rs:46 | `position(is_whitespace)` as a loop: returns the word length |
| WhitespaceFilter.CopyInto | src/bin/day09.rs:50 | copies the first n bytes into the output buffer and leaves the rest of it unchanged |
| WhitespaceFilter.FilterSpace.constructor | src/bin/day09.rs:16-20 | a filter over the given bytes, at position 0 |
| WhitespaceFilter.FilterSpace.Consume | src/bin/day09.rs:28 | advances the cursor by n; the remaining bytes lose n from the front |
| WhitespaceFilter.FilterSpace.SkipSpaces | src/bin/day09.rs:22-30 | advances past the leading whitespace, and no further |
| WhitespaceFilter.FilterSpace.Read | src/bin/day09.rs:40-54 | skips whitespace; copies the word, cut at the buffer length, into the buffer's front and leaves the rest of the buffer unchanged; then consumes size + 1 bytes; returns 0 exactly when the buffer is empty or only whitespace remains |
| WhitespaceFilter.FilterSpace.ReadChunk | src/bin/day09.rs:40-54 | one read: the piece it returns followed by the rest of the drain is the drain of the old remaining bytes |
| WhitespaceFilter.FilterSpace.ReadToEnd | src/bin/day09.rs:57-85 | reading until a read returns 0 yields exactly the drain of the input |
| PixelScreen.IndexOf | src/bin/day08.rs:123-125 | the index of a cell (x, y) with x < w lies in row y's run of the vector, from w * y up to w * (y + 1) |
| PixelScreen.IndexInRange | src/bin/day08.rs:123-125 | index_of of an in-screen cell is inside the w * h vector |
| PixelScreen.IndexInjective | src/bin/day08.rs:123-125 | two in-row cells share an index exactly when they are the same cell |
| PixelScreen.Back | src/bin/day08.rs:110 | the source index of a rotation: j - amt wrapped into 0..n |
| PixelScreen.SourceIndex | src/bin/day08.rs:110 | the i8 expression `((j as i8 - amt as i8) + n as i8) as usize % n`, under RotationFits, equals Back |
| PixelScreen.CountTrueIsMultiplicity | src/bin/day08.rs:87-89 | the lit count is the number of `true`s in the vector |
| PixelScreen.BlankCount | src/bin/day08.rs:54-60 | a new screen has no lit cell |
| PixelScreen.RectEffect | src/bin/day08.rs:99-105 | after rect(a, b) a cell is lit exactly when it was lit or lies in the top-left a by b block |
| PixelScreen.RotatedAt | src/bin/day08.rs:115-121 | the rotated row holds at j the old cell at j - amt, wrapped |
| PixelScreen.RotatedInverse | src/bin/day08.rs:115-121 | rotating by amt and then by n - amt restores the row |
| PixelScreen.RotatedCount | src/bin/day08.rs:115-121 | rotating a row keeps its lit count |
| PixelScreen.RowRotatedCells | src/bin/day08.rs:115-121 | rotate_row moves the cells of row r by amt and leaves every other row unchanged |
| PixelScreen.ColRotatedCells | src/bin/day08.rs:107-113 | rotate_col moves the cells of column c down by amt and leaves every other column unchanged |
| PixelScreen.ColRotatedCount | src/bin/day08.rs:107-113 | rotating a column keeps the lit count |
| PixelScreen.RenderedRow | src/bin/day08.rs:128-139 | the Debug text has one line per row: '#' or '.' for each cell, then a newline |
| PixelScreen.RenderedLength | src/bin/day08.rs:128-139 | the Debug text is (w + 1) * h chars long |
| PixelScreen.RotationKeepsCount | src/bin/day08.rs:91-97 | executing a rotation command keeps the lit count |
| PixelScreen.Display.constructor | src/bin/day08.rs:54-60 | a w by h screen of w * h dark cells |
| PixelScreen.Display.CountLit | src/bin/day08.rs:87-89 | the number of lit cells, at most w * h |
| PixelScreen.Display.Get | src/bin/day08.rs:143-147 | on a w by h screen, the value at (x, y) is cell (x, y) of the row-major grid the vector stores |
| PixelScreen.Display.Set | src/bin/day08.rs:149-154 | assigning cell (x, y) changes that index of the vector only |
| PixelScreen.Display.Clear | src/bin/day08.rs:62-69 | every cell is dark afterwards |
| PixelScreen.Display.Column | src/bin/day08.rs:71-77 | returns column c, top to bottom |
| PixelScreen.Display.Row | src/bin/day08.rs:79-85 | returns row r, left to right |
| PixelScreen.Display.Rect | src/bin/day08.rs:99-105 | the new cells are RectCells of the old ones: the block is lit, the rest unchanged |
| PixelScreen.Display.RotateRow | src/bin/day08.rs:115-121 | the new cells are the old ones with row r rotated right by amt |
| PixelScreen.Display.RotateCol | src/bin/day08.rs:107-113 | the new cells are the old ones with column c rotated down by amt |
| PixelScreen.Display.Exec | src/bin/day08.rs:91-97 | dispatches a command; the new cells are Apply of the old cells |
| PixelScreen.Display.Render | src/bin/day08.rs:128-139 | returns the Debug text of the cells |
| PixelScreen.ScreenExample | src/bin/day08.rs:175-195 | on a 7 by 3 screen, rect 3x2, column 1 by 1, row 0 by 4, column 1 by 1 give ".#..#.#\n#.#....\n.#.....\n" with 6 lit |
| PixelScreen.ExampleSinglePixel | src/bin/day08.rs:177-179 | one lit corner renders as "#......\n.......\n.......\n" |
| PixelScreen.RunExample | src/bin/day08.rs:175-195 | the display test run through the Display methods gives the expected texts and 6 lit cells |
| RoomCodes.KeyUnique | src/bin/day04.rs:27-39 | the checksum is unique: any two strings meeting its definition are equal, so hash-map order cannot change it |
| RoomCodes.TopFiveIsKey | src/bin/day04.rs:38 | the first five of all counted chars, ranked by count then by char, are the checksum |
| RoomCodes.InsertRanked | src/bin/day04.rs:30-37 | inserting a char at its place in a ranked string keeps it ranked |
| RoomCodes.SortByRank | src/bin/day04.rs:28-37 | the counted chars sorted by descending count, then ascending char: ranked, and holding exactly the entries |
| RoomCodes.Counter.constructor | src/bin/day04.rs:18-20 | a counter with no counts |
| RoomCodes.Counter.AddChar | src/bin/day04.rs:22-25 | the char's count goes up by one, starting from 0; every other count is unchanged |
| RoomCodes.Counter.Key | src/bin/day04.rs:27-39 | returns the checksum of the counts |
| RoomCodes.AddCharExample | src/bin/day04.rs:99-110 | counting a, a, b gives a:2 and b:1 |
| RoomCodes.Find | src/bin/day04.rs:90-91 | `find`: the first index of the char, or None exactly when it is absent |
| RoomCodes.Split | src/bin/day04.rs:88 | `split('-')`: at least one segment, none holding the separator, and joining them gives back the text |
| RoomCodes.SplitJoin | src/bin/day04.rs:88 | splitting joined separator-free segments gives them back |
| RoomCodes.RoomCode.ComputeKey | src/bin/day04.rs:50-56 | returns the checksum of the frequencies of all the name's chars |
| RoomCodes.RoomCode.ValidCode | src/bin/day04.rs:58-60 | true exactly when the stored key is the checksum of the name |
| RoomCodes.RoomCode.Decrypt | src/bin/day04.rs:62-68 | the shifted segments joined by single spaces; splitting on spaces gives them back |
| RoomCodes.RoomCode.DecryptedSegments | src/bin/day04.rs:62-68 | one segment per name segment, of the same length, all lowercase letters |
| RoomCodes.FromStr | src/bin/day04.rs:87-96 | a parsed code has a `u32` sector, name segments without '-', and a key without '-' or ']' |
| RoomCodes.LastSegment | src/bin/day04.rs:88-89 | the text after the last '-', which holds no '-' |
| RoomCodes.FromStrErrors | src/bin/day04.rs:87-96 | the parse fails with "missing '['" exactly when the last segment has no '['; with "missing ']'" exactly when it has a '[' but no ']'; with "not an integer sector code" exactly when it has both and the text before the '[' is not a `u32`; and it fails in no other case |
| RoomCodes.SectorBeforeKey | src/bin/day04.rs:90-93 | when the sector parses, the first ']' comes after the first '[', so the key slice cannot panic |
| RoomCodes.ParseFormat | src/bin/day04.rs:87-96 | parsing the text of any well-formed room code gives it back |
| RoomCodes.Shift | src/bin/day04.rs:75-81 | the cipher on one char gives a lowercase letter |
| RoomCodes.ShiftInverse | src/bin/day04.rs:75-81 | shifting by k and then by 26 - k gives back a lowercase letter |
| RoomCodes.ShiftCycle | src/bin/day04.rs:75-81 | shifting by k < 26 adds k, wrapping past 'z' back to 'a' |
| RoomCodes.ShiftText | src/bin/day04.rs:75-81 | `Chars::decrypt`: each char shifted, same length, all lowercase |
| RoomCodes.ShiftTextInverse | src/bin/day04.rs:75-81 | decrypting by k and then by 26 - k gives back a lowercase text |
| RoomCodeExamples.KeyExampleBac | src/bin/day04.rs:112-127 | counts c:2, a:2, b:4 have the checksum "bac" and no other |
| RoomCodeExamples.KeyTestCounts | src/bin/day04.rs:112-127 | the test's eight add_char calls give c:2, a:2, b:4 |
| RoomCodeExamples.KeyExampleOarel | src/bin/day04.rs:129-136 | the checksum of "notarealroom" is "oarel" |
| RoomCodeExamples.EmptyText | src/bin/day04.rs:87-96 | the empty text fails with "missing '['" |
| RoomCodeExamples.ParseExample | src/bin/day04.rs:138-145 | "aaaaa-bbb-z-y-x-123[abxyz]" parses to key "abxyz", sector 123, five name segments |
| RoomCodeExamples.AbxyzIsReal | src/bin/day04.rs:147-164 | the text "aaaaa-bbb-z-y-x-123[abxyz]" parses to the code with that name, sector 123 and key "abxyz", and that code is real |
| RoomCodeExamples.AbcdeIsReal | src/bin/day04.rs:158-164 | the text "a-b-c-d-e-f-g-h-987[abcde]" parses to its code, and that code is real |
| RoomCodeExamples.OarelIsReal | src/bin/day04.rs:158-164 | the text "not-a-real-room-404[oarel]" parses to its code, and that code is real |
| RoomCodeExamples.DecoyIsNotReal | src/bin/day04.rs:158-164 | the text "totally-real-room-200[decoy]" parses to its code, and that code is not real |
| RoomCodeExamples.DecryptExample | src/bin/day04.rs:166-170 | "qzmt-zixmtkozy-ivhz-343[xxx]" decrypts to "very encrypted name" |
| Ipv7.InsideFromLastBracket | src/bin/day07.rs:19-23 | the tracked bracket state is inside exactly when the last bracket seen is '[' |
| Ipv7.InsideFromSkip | src/bin/day07.rs:8 | starting the tracking later changes nothing when the skipped bytes hold no bracket |
| Ipv7.IsTlsAddress | src/bin/day07.rs:4-27 | `is_tls_address` as written: true exactly when Tls holds; false for fewer than four bytes |
| Ipv7.IsTlsAddressTracked | src/bin/day07.rs:4-27 | corrected checker: true exactly when TlsTracked holds |
| Ipv7.TlsAgree | src/bin/day07.rs:8 | the two checkers agree whenever the first three bytes hold no bracket |
| Ipv7.Match.IsInverse | src/bin/day07.rs:32-34 | the one inverse of a match is the match with its two bytes swapped, on the other side of the brackets |
| Ipv7.InverseSymmetric | src/bin/day07.rs:32-34 | is_inverse is symmetric |
| Ipv7.AnyInverse | src/bin/day07.rs:44-46 | true exactly when some recorded match is an inverse |
| Ipv7.SslMatches.constructor | src/bin/day07.rs:40-42 | no matches recorded |
| Ipv7.SslMatches.ContainsInverse | src/bin/day07.rs:44-46 | true exactly when some recorded match is an inverse of m |
| Ipv7.SslMatches.AddMatch | src/bin/day07.rs:48-50 | appends m to the recorded matches |
| Ipv7.SslMatchesExample | src/bin/day07.rs:79-87 | (0, 1, outside) has no inverse before it is added; (1, 0, inside) finds it after |
| Ipv7.MatchesBefore | src/bin/day07.rs:53-77 | the matches recorded before i are exactly the candidates at positions 2..i |
| Ipv7.IsSslAddress | src/bin/day07.rs:53-77 | `is_ssl_address` as written: true exactly when Ssl holds |
| Ipv7.AbasBefore | src/bin/day07.rs:53-77 | the ABAs before i, with the bracket state tracked from the first byte |
| Ipv7.IsSslAddressTracked | src/bin/day07.rs:53-77 | corrected checker: true exactly when SslTracked holds |
| Ipv7Examples.TlsScan | src/bin/day07.rs:4-27 | Tls holds exactly when the scan from index 3 finds an ABBA and none inside |
| Ipv7Examples.SslScan | src/bin/day07.rs:53-77 | Ssl holds exactly when the scan from index 2 finds an inverse pair |
| Ipv7Examples.AbbaMnopQrstSupportsTls | src/bin/day07.rs:112 | "abba[mnop]qrst" supports TLS under both checkers |
| Ipv7Examples.AbcdBddbXyyxLacksTls | src/bin/day07.rs:113 | "abcd[bddb]xyyx" does not support TLS |
| Ipv7Examples.AaaaQwerTyuiLacksTls | src/bin/day07.rs:114 | "aaaa[qwer]tyui" does not support TLS |
| Ipv7Examples.IoxxojAsdfghZxcvbnSupportsTls | src/bin/day07.rs:115 | "ioxxoj[asdfgh]zxcvbn" supports TLS |
| Ipv7Examples.AbaBabXyzSupportsSsl | src/bin/day07.rs:93 | "aba[bab]xyz" supports SSL |
| Ipv7Examples.XyxXyxXyxLacksSsl | src/bin/day07.rs:97 | "xyx[xyx]xyx" does not support SSL |
| Ipv7Examples.AaaKekEkeSupportsSsl | src/bin/day07.rs:102 | "aaa[kek]eke" supports SSL |
| Ipv7Examples.ZazbzBzbCdbSupportsSsl | src/bin/day07.rs:107 | "zazbz[bzb]cdb" supports SSL |
| Ipv7Examples.TlsMissesEarlyBracket | src/bin/day07.rs:8 | as written: "a[xyyx]" passes the TLS check though its ABBA is inside brackets |
| Ipv7Examples.SslAcceptsRepeatedByte | src/bin/day07.rs:65-66 | as written: "aaa[aaa]" passes the SSL check though "aaa" is not an ABA |
| Ipv7Examples.SslMissesEarlyBracket | src/bin/day07.rs:57 | as written: "[bab]aba" fails the SSL check because the first '[' is never tracked |
| GridWalk.RustRem | src/bin/day01.rs:16 | Rust's `%`, which truncates toward zero |
| GridWalk.Dir.Turned | src/bin/day01.rs:12-23 | a quarter turn always moves between the north-south and the east-west axis |
| GridWalk.TurnTable | src/bin/day01.rs:12-23 | the eight turns of the turn test: N-L is W, N-R is E, and so on |
| GridWalk.TurnRotates | src/bin/day01.rs:12-23 | turning moves the direction's index by -1 or +1 modulo 4 |
| GridWalk.TurnsCancel | src/bin/day01.rs:12-23 | a left turn and a right turn cancel |
| GridWalk.FourTurns | src/bin/day01.rs:12-23 | four turns the same way come back to the start |
| GridWalk.TurnAround | src/bin/day01.rs:70-80 | two turns the same way reverse the step |
| GridWalk.Position.Update | src/bin/day01.rs:59-64 | a turn command turns and a step command steps |
| GridWalk.Position.UpdateTurn | src/bin/day01.rs:66-68 | turns in place |
| GridWalk.Position.UpdateStep | src/bin/day01.rs:70-80 | moves one block in the facing direction, keeping the facing |
| GridWalk.Position.DistanceToOrigin | src/bin/day01.rs:82-84 | zero exactly at the origin |
| GridWalk.StepDistance | src/bin/day01.rs:82-84 | a step changes the distance to the origin by exactly one |
| GridWalk.StepBack | src/bin/day01.rs:66-80 | a step, an about-turn and a step come back to the same block |
| GridWalk.DistanceExample | src/bin/day01.rs:211-215 | (2, -2) is 4 blocks from the origin |
| GridWalk.WalkDistance | src/bin/day01.rs:222 | the fold of `update` ends at most one block from its start per command |
| GridWalk.WalkAppend | src/bin/day01.rs:217-225 | the fold over a + b is the fold over b from the end of a |
| GridWalk.WalkSteps | src/bin/day01.rs:70-80 | n steps move n blocks in the facing direction |
| GridWalk.WalkExample | src/bin/day01.rs:178-187 | a left turn and five steps from the origin reach (-5, 0) facing west |
| GridWalk.FirstRevisit | src/bin/day01.rs:227-252 | returns the position after the first step that reaches a block already seen (the origin included), or None when no step revisits |
| GridWalk.Scan | src/bin/day01.rs:100-126 | the next token and the rest: None exactly when no token is left; a token is a turn letter or a digit run |
| GridWalk.ScanSkips | src/bin/day01.rs:105-107 | chars that start no token are skipped |
| GridWalk.ScanTurn | src/bin/day01.rs:109-111 | 'L' or 'R' is a token by itself |
| GridWalk.ScanDigits | src/bin/day01.rs:113-123 | a digit run is a token; the char that ends it is consumed |
| GridWalk.Tokenize.constructor | src/bin/day01.rs:92-94 | a tokenizer over the whole text |
| GridWalk.Tokenize.Next | src/bin/day01.rs:100-126 | returns the token Scan finds and keeps the rest Scan leaves |
| GridWalk.TokenizeExample | src/bin/day01.rs:189-195 | ",  L   ,   32" gives "L", "32", then None |
| GridWalk.ParseTurn | src/bin/day01.rs:32-38 | "L" is Left, "R" is Right, anything else an error |
| GridWalk.NextTokensOf | src/bin/day01.rs:136-147 | the commands end exactly when a token is missing; an emitted turn is the one the turn token names, and the new pending steps fit in a `u32` |
| GridWalk.NextTokensOfCases | src/bin/day01.rs:136-147 | with two tokens read: a first token that is not a turn letter panics with "expected a turn"; a turn letter and a second token that is not a `u32` panic with "expected a u32"; otherwise the turn is emitted and the parsed count becomes the pending steps |
| GridWalk.NextOf | src/bin/day01.rs:153-160 | a pending step is emitted before any text is read; otherwise the next tokens are read |
| GridWalk.Parse.constructor | src/bin/day01.rs:219-220 | a parser over the text with no pending steps |
| GridWalk.Parse.NextTokens | src/bin/day01.rs:136-147 | the outcome and new state are those of NextTokensOf |
| GridWalk.Parse.Next | src/bin/day01.rs:153-160 | the outcome and new state are those of NextOf |
| GridWalk.Parse.Commands | src/bin/day01.rs:217-225 | draws every command until the parser ends or panics: exactly Run of the start state |
| GridWalk.Letter | src/bin/day01.rs:32-38 | the letter of a turn parses back to it |
| GridWalk.RunSteps | src/bin/day01.rs:153-160 | n pending steps are emitted before the text is read on |
| GridWalk.RunFormat | src/bin/day01.rs:100-160 | instructions written as "L2, R1, …" read back as each turn followed by one step per block, then the end |
| GridWalk.ReadCommandsExample | src/bin/day01.rs:197-209 | "L2, R1, L1" reads as L, step, step, R, step, L, step, then the end |
| GridWalkDraft.AsI32 | src/bin/day-01.rs:49-50 | `as i32` on a u32: in i32 range and congruent modulo 2^32 |
| GridWalkDraft.Position.Update | src/bin/day-01.rs:39-53 | turns, then moves the count of blocks in the new direction, with the count cast to i32 as the source does: a count above 2^31 walks the other way |
| GridWalkDraft.UpdateIsTurnThenSteps | src/bin/day-01.rs:39-53 | a draft command is the final version's turn followed by that many steps |
| GridWalkDraft.UpdateWrapsLargeCounts | src/bin/day-01.rs:49-50 | R 2^31 + 1 from the origin goes west 2^31 - 1 blocks |
| GridWalkDraft.UpdateExample | src/bin/day-01.rs:86-91 | L5 from the origin reaches (-5, 0) facing west |
| GridWalkDraft.ReadTurn | src/bin/day-01.rs:56-64 | skips spaces and commas and reads 'L' or 'R'; None when only separators are left |
| GridWalkDraft.ReadTurnAfterSeparators | src/bin/day-01.rs:56-64 | a turn letter after any separators is read back |
| GridWalkDraft.ReadTurnExamples | src/bin/day-01.rs:93-100 | "L", "R", "   R", ",  R" and "" read as in the turn test |
| GridWalkDraft.ReadSteps | src/bin/day-01.rs:66-69 | the leading digit run as a u32; None when the run is empty or too large |
| GridWalkDraft.ReadStepsShow | src/bin/day-01.rs:66-69 | a u32 spelled in decimal, then a non-digit, is read back |
| GridWalkDraft.ReadStepsOverflow | src/bin/day-01.rs:66-69 | a number above `u32::MAX` is rejected |
| GridWalkDraft.ReadStepsExamples | src/bin/day-01.rs:102-106 | "1234" and "1234, L1233" both read 1234 |
| Triangles.Triangle.Sides | src/bin/day03.rs:13-15 | the three sides in order |
| Triangles.Max | src/bin/day03.rs:41 | the maximum is one of the values and no value is larger |
| Triangles.SumOfThree | src/bin/day03.rs:41 | the sum of the sides is a + b + c |
| Triangles.IsTriangle | src/bin/day03.rs:40-42 | `2 * max < sum` holds exactly when every side is shorter than the other two together |
| Triangles.InRangeOf | src/bin/day03.rs:41 | the u32 arithmetic does not overflow exactly when twice the largest side and the sum fit |
| Triangles.IsTriangleSymmetric | src/bin/day03.rs:40-42 | the test does not depend on the order of the sides |
| Triangles.MaxOfThree | src/bin/day03.rs:41 | the maximum of three sides by cases |
| Triangles.CountTriangles | src/bin/day03.rs:51-52 | at most the number of triangles; zero exactly when none passes |
| Triangles.Words | src/bin/day03.rs:28 | `split_whitespace`: non-empty words without whitespace |
| Triangles.WordsUnwords | src/bin/day03.rs:28 | words joined by spaces split back into the same words |
| Triangles.ParseLine | src/bin/day03.rs:27-38 | an error exactly when there are not three words; otherwise the three parsed u32s, or a panic when one does not parse |
| Triangles.FromStr | src/bin/day03.rs:21-24 | a triangle exactly when parse_line succeeds, with its sides; parse_line's error otherwise |
| Triangles.ParseLineFormat | src/bin/day03.rs:27-38 | three u32s written with any leading whitespace parse back |
| Triangles.ParseLineTooFew | src/bin/day03.rs:30-37 | two numbers give the error |
| Triangles.Example | src/bin/day03.rs:40-42 | "  5 10 25" parses to 5, 10, 25, which is not a triangle |
| Triangles.Columns | src/bin/day03.rs:62-68 | three triangles for each complete group of three rows |
| Triangles.ColumnsAt | src/bin/day03.rs:62-68 | group g yields the first, second and third values of its three rows as triangles |
| Triangles.ColumnsDropsPartialGroup | src/bin/day03.rs:62 | a trailing group of fewer than three rows is dropped, as `tuples` does |
| Triangles.ParseAll | src/bin/day03.rs:49 | every line parsed |
| Triangles.Rows | src/bin/day03.rs:49 | the rows exactly when every line parsed, in order |
| Triangles.Across | src/bin/day03.rs:50 | one triangle per row |
| Triangles.TallyCounts | src/bin/day03.rs:51-52 | the count is produced exactly when no sum overflows, and is the count of triangles |
| Triangles.PartOne | src/bin/day03.rs:44-54 | an answer counts at most one triangle per line |
| Triangles.PartTwo | src/bin/day03.rs:56-72 | an answer counts at most as many triangles as there are lines: three for each group of three |
| Triangles.PartOneCounts | src/bin/day03.rs:44-54 | part one answers exactly when every line parses and no sum overflows; the answer is the number of triangle rows |
| Triangles.PartTwoCounts | src/bin/day03.rs:56-72 | part two answers under the same conditions; the answer is the number of triangles read down the columns |
| Histogram.Counter.constructor | src/bin/day06.rs:11-13 | a counter with no counts |
| Histogram.Counter.AddChar | src/bin/day06.rs:15-18 | the char's count goes up by one, starting from 0; every other count is unchanged |
| Histogram.Counter.Top | src/bin/day06.rs:20-24 | a counted char whose count no other count exceeds |
| Histogram.Counter.Bottom | src/bin/day06.rs:26-30 | a counted char whose count is not above any other count |
| Histogram.TopOfText | src/bin/day06.rs:20-24 | a top of a text's frequencies is a char of the text occurring at least as often as every other |
| Histogram.BottomOfText | src/bin/day06.rs:26-30 | a bottom is a char of the text occurring at most as often as every other |
| Histogram.ExtremesAgree | src/bin/day06.rs:20-30 | any two tops, or any two bottoms, have the same count, so hash-map order only chooses among ties |
| Histogram.Column | src/bin/day06.rs:38-40 | column i of the lines read so far: at most one char per line |
| Histogram.ColumnAppend | src/bin/day06.rs:38-40 | a new line adds its char i to column i, if it has one |
| Histogram.ColumnChars | src/bin/day06.rs:38-40 | a char is in column i exactly when some line has it at position i |
| Histogram.AddLine | src/bin/day06.rs:38-40 | counter i counts char i of the line; counters past the line's end are unchanged |
| Histogram.NewCounters | src/bin/day06.rs:35 | n fresh, distinct, empty counters |
| Histogram.FeedColumn | src/bin/day06.rs:38-40 | counting a line's char i into the frequencies of column i gives the frequencies of the longer column |
| Histogram.FeedLine | src/bin/day06.rs:38-40 | after line k is fed, counter i holds the frequencies of column i over lines 0..k, and no counter is empty |
| Histogram.ReadTops | src/bin/day06.rs:38-41 | one pass of `part_one`: feeds line k and returns a most-common-char message of lines 0..k |
| Histogram.ReadBottoms | src/bin/day06.rs:50-53 | one pass of `part_two`: feeds line k and returns a least-common-char message of lines 0..k |
| Histogram.Tops | src/bin/day06.rs:41 | the message of the counters' tops |
| Histogram.Bottoms | src/bin/day06.rs:53 | the message of the counters' bottoms |
| Histogram.PartOne | src/bin/day06.rs:33-43 | one 8-char message per line; after line k, char i is a most common char of column i over lines 0..k |
| Histogram.PartTwo | src/bin/day06.rs:45-55 | one 8-char message per line; after line k, char i is a least common char of column i over lines 0..k |
| Keypad.AsI8 | src/bin/day02.rs:5 | `x as i8` reads the byte as two's complement |
| Keypad.Sub1 | src/bin/day02.rs:4-6 | one less, not below 0, for x up to 127; 0 for x above 128 |
| Keypad.Add1 | src/bin/day02.rs:8-10 | one more, not above 2 |
| Keypad.ClampsInverse | src/bin/day02.rs:4-10 | on the pad, sub1 and add1 stay on it and undo each other away from the edges |
| Keypad.Step | src/bin/day02.rs:17-23 | a move exactly for 'U', 'D', 'L', 'R'; it stays on the pad and changes one axis only |
| Keypad.Walk | src/bin/day02.rs:16-24 | a walk that does not fail ends on the pad |
| Keypad.WalkOnPad | src/bin/day02.rs:16-24 | a walk stays on the pad, and fails exactly when some char is not a move |
| Keypad.Digit | src/bin/day02.rs:26 | the key under a position is 1 to 9 |
| Keypad.DigitPosition | src/bin/day02.rs:26 | the key numbers positions one to one, row by row |
| Keypad.Decode | src/bin/day02.rs:13-27 | walks "ULL" from the middle key, whatever its argument, and ends on key 1 at (0, 0) |

## Left out

- Input and output: reading stdin, `main`, argument flags and printing. The
  printed values are modelled as return values. For day 6, the messages are
  returned one per line. For day 1, part two's position is returned.
- Day 5 (an MD5 search) is not part of this model.
- `Command::from_str` of day 8 is left out. It is built on the `regex` crate,
  which is not part of this model. Commands are taken as already parsed.
- The `BufRead` machinery of day 9 is replaced by an in-memory cursor.
  `fill_buf` returns all the remaining bytes, as a `Cursor` does, so the
  whole input is one buffer. `into_bufreader` is not modelled. I/O errors
  cannot happen.
- WhitespaceFilter.FilterSpace.ReadToEnd: reads through a buffer of one
  fixed size. The buffer growth of `read_to_string` is not modelled.
  `read_to_string`'s UTF-8 check is also left out, so the result is bytes.
- `HashMap` iteration order: `Counter.Key`, `Counter.Top` and
  `Counter.Bottom` take the map's keys in an unspecified order. For the
  checksum, KeyUnique shows the order does not matter. For top and bottom,
  any char of the extreme count may come out, and ExtremesAgree shows all
  such chars have the same count.
- Histogram.Counter.AddChar: counts are unbounded. The `u32` overflow of
  `*c += 1` after 2^32 - 1 equal chars is not modelled.
- RoomCodes.Counter.AddChar: counts are unbounded, as in the day 6 counter.
- Histogram.PartOne: requires that no line is longer than 8 chars and that
  the first line has exactly 8. The source panics otherwise: `cs[i]` is
  indexed past the end, or `entries[0]` is read from an empty counter.
- Histogram.PartTwo: the same precondition as PartOne, for the same reason.
- PixelScreen.Display.RotateRow: requires RotationFits. That is, the amount
  is at most the width, and the i8 expression neither overflows nor goes
  negative. Outside that range, Rust's i8 arithmetic panics or wraps, and
  this is not modelled.
- PixelScreen.Display.RotateCol: requires RotationFits for the height, as
  RotateRow does for the width.
- PixelScreen.Display.Rect: requires RectFits: the last cell written,
  (a - 1, b - 1), has its index inside the vector. A block wider than the
  screen that stays inside the vector writes cells of the next row, as the
  source does, and the model keeps that (InRect). A block whose last index
  is past the vector makes the source panic, and is not modelled.
- RoomCodes.RoomCode.Decrypt: requires every char of the name to be at least
  'a'. A smaller char underflows `u32` and panics.
- Triangles.PartOneCounts: a panic (an `expect` on a bad line, or `u32`
  overflow in the triangle test) becomes an `Abort` answer carrying its
  message. A failed read of stdin is not modelled.
- Triangles.PartTwoCounts: panics are modelled as for part one.
- GridWalk.Position.DistanceToOrigin: coordinates are unbounded. The i32
  overflow of a walk longer than 2^31 blocks, and the `u32` cast of the
  distance, are not modelled.
- GridWalk.Position.UpdateStep: coordinates are unbounded, so the i32
  overflow of `self.x + dx` is not modelled.
- GridWalkDraft.ReadSteps: takes the run of ASCII digits. The source's
  `is_numeric` also takes other Unicode numeric chars, such as '²' or '٣',
  into the run, and `u32::from_str` then rejects it. So on "1²" the source
  gives None and the model gives 1.
- GridWalkDraft.Position.Update: coordinates and the product of the
  direction and the count are unbounded. The i32 overflow of `dx *
  cmd.steps as i32` for a count of exactly 2^31 facing west or south
  (-1 times `i32::MIN`), and of the sums `self.x + dx` and `self.y + dy`,
  is not modelled: the model moves 2^31 blocks there. A debug build
  panics, and a release build wraps.
- GridWalk.FirstRevisit: works on the list of commands the parser emits. A
  panic of the parser ends the list, as it would end part two.

## Findings

| source | as written | input that shows it | evidently intended | confidence | as-written member | corrected member |
|---|---|---|---|---|---|---|
| src/bin/day09.rs:52 | `consume(size + 1)` always skips one byte past the copied word | "abcd" read through a 2-byte buffer gives "abd" | skip the byte after the copy only when it is whitespace | not executed | WhitespaceFilter.DrainDropsByteAtBufferLimit | WhitespaceFilter.DrainCorrectedStrips |
| src/bin/day07.rs:8 | the bracket state is tracked only from index 3, so a bracket among the first three bytes is missed | "a[xyyx]" is accepted as TLS | track brackets from the first byte | not executed | Ipv7Examples.TlsMissesEarlyBracket | Ipv7.IsTlsAddressTracked |
| src/bin/day07.rs:65 | any `x y x` with x == y counts as an ABA | "aaa[aaa]" is accepted as SSL | require the middle byte to differ | not executed | Ipv7Examples.SslAcceptsRepeatedByte | Ipv7.IsSslAddressTracked |
| src/bin/day07.rs:57 | the SSL bracket state is tracked only from index 2 | "[bab]aba" is rejected as SSL | track brackets from the first byte | not executed | Ipv7Examples.SslMissesEarlyBracket | Ipv7.IsSslAddressTracked |
