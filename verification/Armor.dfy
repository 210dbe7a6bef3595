/**
 The armored key block: the one text layout accepted, and what its checksum line
 guarantees. The base64 decoder is a parameter.
 */
module Armor {
  import opened Prelude
  import opened Numerals
  import opened Crc24

  const DASHES := "-----"
  const KEY_BLOCK := "PUBLIC " + "KEY " + "BLOCK"
  const BEGIN := DASHES + "BEGIN PGP " + KEY_BLOCK + DASHES
  const END := DASHES + "END PGP " + KEY_BLOCK + DASHES
  const MAX_ARMOR_CHARS := 12288
  const MAX_ARMOR_LINE := 76
  const MAX_KEY_BLOCK_BYTES := 8192

  // ----- lines ------------------------------------------------------------------------------

  /** `text.split("\n")`. */
  function Lines(text: string): (r: seq<string>)
    ensures r != []
  {
    if text == [] then [[]]
    else
      var rest := Lines(text[1..]);
      if text[0] == '\n' then [[]] + rest else [[text[0]] + rest[0]] + rest[1..]
  }

  /** The lines with a newline between each two. */
  function Joined(lines: seq<string>): string
    requires lines != []
  {
    if |lines| == 1 then lines[0] else lines[0] + ['\n'] + Joined(lines[1..])
  }

  predicate NoBreaks(lines: seq<string>) {
    forall line | line in lines :: '\n' !in line
  }

  lemma {:induction false} LinesJoin(text: string)
    ensures Joined(Lines(text)) == text && NoBreaks(Lines(text))
  {
    if text != [] {
      LinesJoin(text[1..]);
      var rest := Lines(text[1..]);
      assert rest == [rest[0]] + rest[1..];
      var r := Lines(text);
      if text[0] == '\n' {
        assert r[1..] == rest;
        assert [] + ['\n'] + Joined(rest) == text;
      } else {
        assert r[0] == [text[0]] + rest[0] && r[1..] == rest[1..];
        assert text == [text[0]] + text[1..];
        if |rest| > 1 {
          assert r[0] + ['\n'] + Joined(r[1..]) == [text[0]] + (rest[0] + ['\n'] + Joined(rest[1..]));
        }
      }
    }
  }

  lemma {:induction false} LinesOfOne(line: string)
    requires '\n' !in line
    ensures Lines(line) == [line]
  {
    if line != [] {
      LinesOfOne(line[1..]);
      assert line == [line[0]] + line[1..];
    }
  }

  lemma {:induction false} LinesOfFirst(line: string, rest: string)
    requires '\n' !in line
    ensures Lines(line + ['\n'] + rest) == [line] + Lines(rest)
    decreases |line|
  {
    var text := line + ['\n'] + rest;
    if line == [] {
      assert text[1..] == rest;
    } else {
      assert text[0] == line[0] && text[1..] == line[1..] + ['\n'] + rest;
      LinesOfFirst(line[1..], rest);
      assert line == [line[0]] + line[1..];
    }
  }

  lemma {:induction false} JoinLines(lines: seq<string>)
    requires lines != [] && NoBreaks(lines)
    ensures Lines(Joined(lines)) == lines
    decreases |lines|
  {
    assert lines[0] in lines;
    if |lines| == 1 {
      LinesOfOne(lines[0]);
    } else {
      assert forall line | line in lines[1..] :: line in lines;
      JoinLines(lines[1..]);
      LinesOfFirst(lines[0], Joined(lines[1..]));
    }
  }

  // ----- the block -----------------------------------------------------------------------------

  predicate Base64Char(c: char) {
    'A' <= c <= 'Z' || 'a' <= c <= 'z' || '0' <= c <= '9' || c == '+' || c == '/'
  }

  /** One or more alphabet characters, then at most two padding characters. */
  predicate DataLine(line: string) {
    && 1 <= |line| <= MAX_ARMOR_LINE
    && Base64Char(line[0])
    && exists k :: 0 <= k <= 2 && PaddedBy(line, k)
  }

  predicate PaddedBy(line: string, k: int) {
    && 0 <= k < |line|
    && (forall i :: 0 <= i < |line| - k ==> Base64Char(line[i]))
    && (forall i :: |line| - k <= i < |line| ==> line[i] == '=')
  }

  predicate DataLines(body: seq<string>) {
    && body != []
    && (forall i :: 0 <= i < |body| ==> DataLine(body[i]))
    && (forall i :: 0 <= i < |body| - 1 ==> '=' !in body[i])
  }

  predicate CrcLine(line: string) {
    |line| == 5 && line[0] == '=' && forall i :: 1 <= i < 5 ==> Base64Char(line[i])
  }

  /** The alphabet by code point. */
  lemma AlphabetExactly(c: char)
    ensures var n := c as int;
      Base64Char(c) <==> 65 <= n <= 90 || 97 <= n <= 122 || 48 <= n <= 57 || n == 43 || n == 47
  {
  }

  /** A data line: at most 76 characters, some of the alphabet and then none, one or two of padding. */
  lemma DataLineExactly(line: string)
    ensures DataLine(line) <==> |line| <= 76 && exists front: string, pad: string ::
      line == front + pad && front != [] && (forall c | c in front :: Base64Char(c)) && pad in {"", "=", "=="}
  {
    hide Base64Char;
    if DataLine(line) {
      var k :| 0 <= k <= 2 && PaddedBy(line, k);
      var front, pad := line[..|line| - k], line[|line| - k..];
      assert pad == if k == 0 then "" else if k == 1 then "=" else "==";
      assert line == front + pad && forall c | c in front :: Base64Char(c);
    }
    if front: string, pad: string :| line == front + pad && front != [] && (forall c | c in front :: Base64Char(c)) && pad in {"", "=", "=="} {
      assert forall i :: 0 <= i < |front| ==> line[i] == front[i] && front[i] in front;
      assert forall i :: |front| <= i < |line| ==> line[i] == pad[i - |front|];
      assert PaddedBy(line, |pad|);
    }
  }

  /** A checksum line: one padding character and four of the alphabet. */
  lemma CrcLineExactly(line: string)
    ensures CrcLine(line) <==> exists digits: string ::
      |digits| == 4 && line == "=" + digits && forall c | c in digits :: Base64Char(c)
  {
    hide Base64Char;
    if CrcLine(line) {
      assert line == "=" + line[1..] && forall c | c in line[1..] :: Base64Char(c);
    }
    if digits: string :| |digits| == 4 && line == "=" + digits && forall c | c in digits :: Base64Char(c) {
      assert forall i :: 1 <= i < 5 ==> line[i] == digits[i - 1] && digits[i - 1] in digits;
    }
  }

  function Concat(lines: seq<string>): string {
    if lines == [] then [] else Concat(lines[..|lines| - 1]) + lines[|lines| - 1]
  }

  /** A block of data lines with an optional checksum line. */
  function BlockLines(body: seq<string>, crc: Option<string>): seq<string> {
    [BEGIN, []] + body + (if crc.Some? then [crc.value] else []) + [END]
  }

  function Block(body: seq<string>, crc: Option<string>, newline: bool): string {
    Joined(BlockLines(body, crc)) + if newline then ['\n'] else []
  }

  type Base64 = string -> Option<bytes>

  /** What the lines between the markers must be. */
  ghost predicate Accepted(decode: Base64, body: seq<string>, crc: Option<string>, data: bytes) {
    && DataLines(body)
    && decode(Concat(body)) == Some(data) && |data| <= MAX_KEY_BLOCK_BYTES
    && (crc.Some? ==>
          && CrcLine(crc.value) && decode(crc.value[1..]).Some?
          && FromBE(decode(crc.value[1..]).value) == Checksum(data))
  }

  predicate Ascii(text: string) {
    forall i :: 0 <= i < |text| ==> text[i] < 128 as char
  }

  /** The lines without the empty one a final newline leaves. */
  function Trimmed(lines: seq<string>): seq<string> {
    if lines != [] && lines[|lines| - 1] == [] then lines[..|lines| - 1] else lines
  }

  predicate Framed(lines: seq<string>) {
    |lines| >= 4 && lines[0] == BEGIN && lines[1] == [] && lines[|lines| - 1] == END
  }

  /** The data lines and the checksum line of a framed block. */
  function Split(lines: seq<string>): (seq<string>, Option<string>)
    requires Framed(lines)
  {
    var middle := lines[2..|lines| - 1];
    var last := middle[|middle| - 1];
    if last != [] && last[0] == '=' then (middle[..|middle| - 1], Some(last)) else (middle, None)
  }

  function Decoded(decode: Base64, body: seq<string>, crc: Option<string>): Option<bytes> {
    if !DataLines(body) || decode(Concat(body)).None? then None
    else if crc.Some? && (!CrcLine(crc.value) || decode(crc.value[1..]).None?) then None
    else
      var data := decode(Concat(body)).value;
      if |data| > MAX_KEY_BLOCK_BYTES then None
      else if crc.Some? && FromBE(decode(crc.value[1..]).value) != Checksum(data) then None
      else Some(data)
  }

  /** What `dearmor` returns; `None` is OpenPgpError. */
  function DearmorOf(decode: Base64, text: string): Option<bytes> {
    if |text| > MAX_ARMOR_CHARS || !Ascii(text) then None
    else
      var lines := Trimmed(Lines(text));
      if !Framed(lines) then None else Decoded(decode, Split(lines).0, Split(lines).1)
  }

  /** `dearmor`. */
  method Dearmor(decode: Base64, text: string) returns (r: Option<bytes>)
    ensures r == DearmorOf(decode, text)
  {
    hide Lines, Checksum, Concat, DataLine;
    if |text| > MAX_ARMOR_CHARS || !Ascii(text) {
      return None;
    }
    var lines := Trimmed(Lines(text));
    if !Framed(lines) {
      return None;
    }
    var (body, crc) := Split(lines);
    if body == [] {
      return None;
    }
    var joined := [];
    assert Concat(body[..0]) == [] by { NothingJoined(body[..0]); }
    for i := 0 to |body|
      invariant forall j :: 0 <= j < i ==> DataLine(body[j])
      invariant forall j :: 0 <= j < i && j < |body| - 1 ==> '=' !in body[j]
      invariant joined == Concat(body[..i])
    {
      if !DataLine(body[i]) {
        return None;
      }
      if '=' in body[i] && i != |body| - 1 {
        return None;
      }
      JoinedNext(body, i);
      joined := joined + body[i];
    }
    assert body[..|body|] == body;
    var data := decode(joined);
    if data.None? {
      return None;
    }
    var expected: Option<nat> := None;
    if crc.Some? {
      if !CrcLine(crc.value) {
        return None;
      }
      var digits := decode(crc.value[1..]);
      if digits.None? {
        return None;
      }
      expected := Some(FromBE(digits.value));
    }
    if |data.value| > MAX_KEY_BLOCK_BYTES {
      return None;
    }
    if expected.Some? {
      var sum := Crc(data.value);
      if expected.value != sum {
        return None;
      }
    }
    return data;
  }

  lemma NothingJoined(lines: seq<string>)
    requires lines == []
    ensures Concat(lines) == []
  {
  }

  lemma JoinedNext(lines: seq<string>, i: nat)
    requires i < |lines|
    ensures Concat(lines[..i + 1]) == Concat(lines[..i]) + lines[i]
  {
    assert lines[..i + 1][..i] == lines[..i];
  }

  // ----- the one layout ------------------------------------------------------------------------

  lemma {:induction false} JoinedSnoc(lines: seq<string>, last: string)
    requires lines != []
    ensures Joined(lines + [last]) == Joined(lines) + ['\n'] + last
    decreases |lines|
  {
    var all := lines + [last];
    if |lines| == 1 {
      assert all[1..] == [last];
    } else {
      assert all[1..] == lines[1..] + [last];
      JoinedSnoc(lines[1..], last);
    }
  }

  lemma SplitRebuilds(lines: seq<string>)
    requires Framed(lines)
    ensures BlockLines(Split(lines).0, Split(lines).1) == lines
  {
    var middle := lines[2..|lines| - 1];
    assert lines == [BEGIN, []] + middle + [END];
    assert middle == middle[..|middle| - 1] + [middle[|middle| - 1]];
    assert middle + [] == middle;
    hide BEGIN, END;
  }

  /** Every text accepted is a block in the one layout, its lines decode to the bytes returned, and
      a checksum line, when there is one, states their checksum. */
  lemma AcceptedIsBlock(decode: Base64, text: string) returns (body: seq<string>, crc: Option<string>, newline: bool)
    requires DearmorOf(decode, text).Some?
    ensures text == Block(body, crc, newline) && Accepted(decode, body, crc, DearmorOf(decode, text).value)
  {
    hide Lines, Joined, DataLines, Concat, CrcLine, Checksum, Ascii;
    var all := Lines(text);
    var lines := Trimmed(all);
    LinesJoin(text);
    SplitRebuilds(lines);
    body, crc := Split(lines).0, Split(lines).1;
    newline := all != lines;
    if newline {
      assert all == lines + [[]];
      JoinedSnoc(lines, []);
      assert Joined(lines) + ['\n'] + [] == Joined(lines) + ['\n'];
    } else {
      assert Joined(lines) + [] == Joined(lines);
    }
  }

  lemma DataLineFacts(line: string)
    requires DataLine(line)
    ensures '\n' !in line && Ascii(line) && line != [] && line[0] != '='
  {
    assert forall i :: 0 <= i < |line| ==> Base64Char(line[i]) || line[i] == '=';
  }

  lemma {:induction false} AsciiJoined(lines: seq<string>)
    requires lines != [] && forall line | line in lines :: Ascii(line)
    ensures Ascii(Joined(lines))
    decreases |lines|
  {
    assert Ascii(lines[0]);
    if |lines| > 1 {
      assert forall line | line in lines[1..] :: line in lines;
      AsciiJoined(lines[1..]);
    }
  }

  predicate Printable(s: string) {
    forall i :: 0 <= i < |s| ==> ' ' <= s[i] <= '~'
  }

  lemma PrintableConcat(s: string, t: string)
    requires Printable(s) && Printable(t)
    ensures Printable(s + t)
  {
  }

  lemma PrintableFacts(s: string)
    requires Printable(s)
    ensures '\n' !in s && Ascii(s)
  {
  }

  lemma PrintableKeyBlock()
    ensures Printable(KEY_BLOCK)
  {
    assert Printable("PUBLIC ") && Printable("KEY ") && Printable("BLOCK");
    PrintableConcat("PUBLIC ", "KEY ");
    PrintableConcat("PUBLIC " + "KEY ", "BLOCK");
  }

  lemma MarkersFacts()
    ensures '\n' !in BEGIN && '\n' !in END && Ascii(BEGIN) && Ascii(END) && BEGIN != [] && END != []
  {
    assert Printable(DASHES) && Printable("BEGIN PGP ") && Printable("END PGP ");
    PrintableKeyBlock();
    hide Printable, KEY_BLOCK;
    PrintableConcat(DASHES, "BEGIN PGP ");
    PrintableConcat(DASHES + "BEGIN PGP ", KEY_BLOCK);
    PrintableConcat(DASHES + "BEGIN PGP " + KEY_BLOCK, DASHES);
    PrintableConcat(DASHES, "END PGP ");
    PrintableConcat(DASHES + "END PGP ", KEY_BLOCK);
    PrintableConcat(DASHES + "END PGP " + KEY_BLOCK, DASHES);
    PrintableFacts(BEGIN);
    PrintableFacts(END);
  }

  lemma BlockLinesFacts(body: seq<string>, crc: Option<string>)
    requires DataLines(body) && (crc.Some? ==> CrcLine(crc.value))
    ensures var lines := BlockLines(body, crc);
      NoBreaks(lines) && (forall line | line in lines :: Ascii(line)) && Framed(lines) && Split(lines) == (body, crc)
  {
    var lines := BlockLines(body, crc);
    MarkersFacts();
    hide BEGIN, END;
    forall line | line in body
      ensures '\n' !in line && Ascii(line) && line != [] && line[0] != '='
    {
      DataLineFacts(line);
    }
    hide DataLine, Ascii;
    if crc.Some? {
      CrcLineFacts(crc.value);
      assert lines[2..|lines| - 1] == body + [crc.value];
      assert (body + [crc.value])[..|body|] == body;
    } else {
      assert body + [] == body;
      assert lines[2..|lines| - 1] == body;
      assert body[|body| - 1] in body;
    }
    assert Ascii([]) by { NothingAscii(); }
  }

  lemma NothingAscii()
    ensures Ascii([])
  {
  }

  lemma CrcLineFacts(line: string)
    requires CrcLine(line)
    ensures '\n' !in line && Ascii(line) && line != [] && line[0] == '='
  {
    assert forall i :: 1 <= i < 5 ==> Base64Char(line[i]);
  }

  /** And every block in that layout is accepted, with or without its checksum line and its final
      newline. */
  lemma BlockIsAccepted(decode: Base64, body: seq<string>, crc: Option<string>, newline: bool, data: bytes)
    requires Accepted(decode, body, crc, data) && |Block(body, crc, newline)| <= MAX_ARMOR_CHARS
    ensures DearmorOf(decode, Block(body, crc, newline)) == Some(data)
  {
    var text, lines := Block(body, crc, newline), BlockLines(body, crc);
    BlockLinesFacts(body, crc);
    AsciiJoined(lines);
    hide Lines, Joined, DataLines, Concat, CrcLine, Checksum, Split, BEGIN, END;
    assert lines[|lines| - 1] != [] by { MarkersFacts(); }
    if newline {
      JoinedSnoc(lines, []);
      assert Joined(lines) + ['\n'] + [] == text;
      assert NoBreaks(lines + [[]]);
      JoinLines(lines + [[]]);
      assert (lines + [[]])[..|lines|] == lines;
    } else {
      assert Joined(lines) + [] == Joined(lines);
      JoinLines(lines);
    }
  }

  /** The checksum line does its work: two accepted blocks with the same one cannot hold data that
      differs in up to three consecutive octets. */
  lemma CorruptionIsRefused(decode: Base64, text: string, text': string, front: bytes, x: bytes, y: bytes, tail: bytes)
    requires |x| == 3 && |y| == 3 && x != y
    requires DearmorOf(decode, text) == Some(front + x + tail)
    requires Framed(Trimmed(Lines(text))) && Framed(Trimmed(Lines(text')))
    requires Split(Trimmed(Lines(text))).1.Some? && Split(Trimmed(Lines(text'))).1 == Split(Trimmed(Lines(text))).1
    ensures DearmorOf(decode, text') != Some(front + y + tail)
  {
    hide Lines, Split, Framed, DataLines, Concat, CrcLine, Checksum, Ascii, FromBE;
    BurstDetected(front, x, y, tail);
  }
}
