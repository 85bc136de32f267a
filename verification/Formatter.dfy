/** The C source written for a string file (rescompiler/textcompiler/src/tux64-textcompiler/formatter.c). */
module Formatter {
  import opened Arithmetic
  import opened Common
  import opened Lexer
  import LexerFsm
  import opened Slices
  import opened TextFile

  const DEFINE_PREFIX := "#define "
  const DEFINE_SUFFIX := " \\\n"
  const BYTE_PREFIX := "   TUX64_LITERAL_UINT8(0x"
  const BYTE_SUFFIX_NEWLINE := "u), \\\n"
  const BYTE_SUFFIX_FINAL := "u)\n"
  const INTEGER_PREFIX := "   0x"
  const INTEGER_SUFFIX := "u\n"

  // ----- Characters and hexadecimal digits -----

  /** The code of a text character, in the order of the font. */
  function Code(c: char): (code: nat)
    requires IsTextCharacter(c)
    ensures code <= 64
  {
    if 'A' <= c <= 'Z' then c as int - 'A' as int
    else if 'a' <= c <= 'z' then c as int - 'a' as int + 26
    else if '0' <= c <= '9' then c as int - '0' as int + 52
    else if c == '%' then 62
    else if c == '.' then 63
    else 64
  }

  function Character(code: nat): char
    requires code <= 64
  {
    if code < 26 then ('A' as int + code) as char
    else if code < 52 then ('a' as int + code - 26) as char
    else if code < 62 then ('0' as int + code - 52) as char
    else if code == 62 then '%'
    else if code == 63 then '.'
    else ' '
  }

  /** Every text character has its own code. */
  lemma CharacterOfCode(c: char)
    requires IsTextCharacter(c)
    ensures Character(Code(c)) == c
  {
  }

  function EncodeNibble(nibble: nat): char
    requires nibble < 16
  {
    if nibble >= 10 then ('a' as int + nibble - 10) as char else ('0' as int + nibble) as char
  }

  function HexByte(byte: nat): string
    requires byte < 256
  {
    [EncodeNibble(byte / 16), EncodeNibble(byte % 16)]
  }

  // ----- What is written -----

  /** The strings that can be converted: text of 1 to 255 text characters; any identifiers. */
  predicate Printable(s: Source) {
    ValidText(s.text)
  }

  function Define(identifier: string): string {
    DEFINE_PREFIX + identifier + DEFINE_SUFFIX
  }

  function ByteLine(c: char, suffix: string): string
    requires IsTextCharacter(c)
  {
    BYTE_PREFIX + HexByte(Code(c)) + suffix
  }

  /** One line per character; only the last one does not go on. */
  function DataBody(text: string): string
    requires text != "" && AllTextCharacters(text)
  {
    if |text| == 1 then ByteLine(text[0], BYTE_SUFFIX_FINAL)
    else ByteLine(text[0], BYTE_SUFFIX_NEWLINE) + DataBody(text[1..])
  }

  function IntegerBody(n: nat): string
    requires n < 256
  {
    INTEGER_PREFIX + HexByte(n) + INTEGER_SUFFIX
  }

  function PrintString(s: Source): string
    requires Printable(s)
  {
    Define(s.data) + DataBody(s.text) + (Define(s.length) + IntegerBody(|s.text|))
  }

  function PrintStrings(strings: seq<Source>): string
    requires forall i :: 0 <= i < |strings| ==> Printable(strings[i])
  {
    if strings == [] then "" else PrintString(strings[0]) + PrintStrings(strings[1..])
  }

  // ----- Reading it back -----

  predicate IsHexDigit(c: char) {
    '0' <= c <= '9' || 'a' <= c <= 'f'
  }

  function Nibble(c: char): nat
    requires IsHexDigit(c)
  {
    if c <= '9' then c as int - '0' as int else c as int - 'a' as int + 10
  }

  /** The two-digit hexadecimal numbers of a piece of C source, each announced by an `x`. */
  function HexNumbers(s: string): seq<nat> {
    if |s| < 3 then []
    else if s[0] == 'x' && IsHexDigit(s[1]) && IsHexDigit(s[2])
        then [16 * Nibble(s[1]) + Nibble(s[2])] + HexNumbers(s[3..])
    else HexNumbers(s[1..])
  }

  lemma {:induction false} SkipsPlain(plain: string, rest: string)
    requires forall i :: 0 <= i < |plain| ==> plain[i] != 'x'
    ensures HexNumbers(plain + rest) == HexNumbers(rest)
  {
    if plain == "" {
      assert plain + rest == rest;
    } else if |plain + rest| >= 3 {
      assert (plain + rest)[1..] == plain[1..] + rest;
      SkipsPlain(plain[1..], rest);
    } else {
      assert |rest| < 3;
    }
  }

  lemma NibbleOfDigit(n: nat)
    requires n < 16
    ensures IsHexDigit(EncodeNibble(n)) && Nibble(EncodeNibble(n)) == n
  {
  }

  lemma ReadsHexByte(byte: nat, rest: string)
    requires byte < 256
    ensures HexNumbers("x" + HexByte(byte) + rest) == [byte] + HexNumbers(rest)
  {
    NibbleOfDigit(byte / 16);
    NibbleOfDigit(byte % 16);
    assert ("x" + HexByte(byte) + rest)[3..] == rest;
  }

  /** A line, however it begins and ends, says its byte. */
  lemma ReadsLine(prefix: string, byte: nat, suffix: string, rest: string)
    requires byte < 256
    requires forall i :: 0 <= i < |prefix| ==> prefix[i] != 'x'
    requires forall i :: 0 <= i < |suffix| ==> suffix[i] != 'x'
    ensures HexNumbers((prefix + "x") + HexByte(byte) + suffix + rest) == [byte] + HexNumbers(rest)
  {
    hide HexNumbers;
    hide HexByte;
    assert (prefix + "x") + HexByte(byte) + suffix + rest == prefix + ("x" + HexByte(byte) + (suffix + rest));
    SkipsPlain(prefix, "x" + HexByte(byte) + (suffix + rest));
    ReadsHexByte(byte, suffix + rest);
    SkipsPlain(suffix, rest);
  }

  function Codes(text: string): seq<nat>
    requires AllTextCharacters(text)
  {
    seq(|text|, i requires 0 <= i < |text| => Code(text[i]))
  }

  lemma {:induction false} DataBodyReadsBack(text: string)
    requires text != "" && AllTextCharacters(text)
    ensures HexNumbers(DataBody(text)) == Codes(text)
  {
    hide HexNumbers;
    var prefix := "   TUX64_LITERAL_UINT8(0";
    assert BYTE_PREFIX == prefix + "x";
    var last := |text| == 1;
    var suffix := if last then BYTE_SUFFIX_FINAL else BYTE_SUFFIX_NEWLINE;
    var rest := if last then "" else DataBody(text[1..]);
    assert DataBody(text) == (prefix + "x") + HexByte(Code(text[0])) + suffix + rest;
    ReadsLine(prefix, Code(text[0]), suffix, rest);
    if last {
      assert HexNumbers("") == [] by { NoNumbers(); }
      assert Codes(text) == [Code(text[0])];
    } else {
      DataBodyReadsBack(text[1..]);
      assert Codes(text) == [Code(text[0])] + Codes(text[1..]);
    }
  }

  lemma NoNumbers()
    ensures HexNumbers("") == []
  {
  }

  function Spelled(codes: seq<nat>): string
    requires forall i :: 0 <= i < |codes| ==> codes[i] <= 64
  {
    seq(|codes|, i requires 0 <= i < |codes| => Character(codes[i]))
  }

  /** The numbers in the emitted source spell the text again, and the length item says how long it is. */
  lemma TextIsRecovered(s: Source)
    requires Printable(s)
    ensures HexNumbers(DataBody(s.text)) == Codes(s.text) && Spelled(Codes(s.text)) == s.text
    ensures HexNumbers(IntegerBody(|s.text|)) == [|s.text|]
  {
    DataBodyReadsBack(s.text);
    forall i | 0 <= i < |s.text| ensures Character(Code(s.text[i])) == s.text[i] {
      CharacterOfCode(s.text[i]);
    }
    IntegerReadsBack(|s.text|);
  }

  lemma IntegerReadsBack(n: nat)
    requires n < 256
    ensures HexNumbers(IntegerBody(n)) == [n]
  {
    hide HexNumbers;
    assert INTEGER_PREFIX == "   0" + "x";
    assert IntegerBody(n) == ("   0" + "x") + HexByte(n) + INTEGER_SUFFIX + "";
    ReadsLine("   0", n, INTEGER_SUFFIX, "");
    NoNumbers();
  }

  // ----- Reading the generated source as a whole -----

  /** A line of C source and what is behind it; a backslash in front of a newline joins two lines. */
  function FirstLine(s: string): (r: (string, string))
    ensures |r.1| <= |s| && (s != "" ==> |r.1| < |s|)
    decreases |s|
  {
    if s == "" then ("", "")
    else if s[0] == '\n' then ("", s[1..])
    else if |s| >= 2 && s[0] == '\\' && s[1] == '\n' then FirstLine(s[2..])
    else ([s[0]] + FirstLine(s[1..]).0, FirstLine(s[1..]).1)
  }

  function Lines(s: string): seq<string>
    decreases |s|
  {
    if s == "" then [] else [FirstLine(s).0] + Lines(FirstLine(s).1)
  }

  /** A macro: its name, and the numbers it is defined as. */
  datatype Macro = Macro(name: string, numbers: seq<nat>)

  function FirstBlank(s: string): (p: nat)
    ensures p <= |s|
  {
    if s == "" || s[0] == ' ' then 0 else 1 + FirstBlank(s[1..])
  }

  /** The macro that a line defines; the name ends at the first blank. */
  function MacroOf(line: string): Option<Macro> {
    if "#define " <= line then
      var rest := line[8..];
      var p := FirstBlank(rest);
      Some(Macro(rest[..p], HexNumbers(rest[p..])))
    else None
  }

  function MacrosOf(lines: seq<string>): seq<Macro> {
    if lines == [] then []
    else (match MacroOf(lines[0]) case Some(m) => [m] case None => []) + MacrosOf(lines[1..])
  }

  /** Everything that a piece of C source defines, in order. */
  function Macros(source: string): seq<Macro> {
    MacrosOf(Lines(source))
  }

  /** Names that the preprocessor takes whole. */
  predicate IsName(name: string) {
    forall i :: 0 <= i < |name| ==> name[i] !in {' ', '\n', '\\'}
  }

  predicate Named(s: Source) {
    IsName(s.data) && IsName(s.length)
  }

  /** What the strings are to be defined as: the text under the one name, its length under the other. */
  function Meaning(strings: seq<Source>): seq<Macro>
    requires forall i :: 0 <= i < |strings| ==> Printable(strings[i])
  {
    if strings == [] then []
    else
      assert Printable(strings[0]);
      [Macro(strings[0].data, Codes(strings[0].text)), Macro(strings[0].length, [|strings[0].text|])]
      + Meaning(strings[1..])
  }

  predicate OneLine(s: string) {
    forall i :: 0 <= i < |s| ==> s[i] !in {'\n', '\\'}
  }

  lemma {:induction false} FirstLineOf(plain: string, rest: string)
    requires OneLine(plain)
    ensures FirstLine(plain + rest) == (plain + FirstLine(rest).0, FirstLine(rest).1)
    decreases |plain|
  {
    var line := FirstLine(rest).0;
    if plain == "" {
      assert plain + rest == rest && plain + line == line;
    } else {
      assert (plain + rest)[1..] == plain[1..] + rest;
      FirstLineOf(plain[1..], rest);
      assert [plain[0]] + (plain[1..] + line) == plain + line;
    }
  }

  lemma LineEnds(rest: string)
    ensures FirstLine("\n" + rest) == ("", rest)
    ensures FirstLine("\\\n" + rest) == FirstLine(rest)
  {
    assert ("\n" + rest)[1..] == rest && ("\\\n" + rest)[2..] == rest;
  }

  lemma HexByteIsPlain(byte: nat)
    requires byte < 256
    ensures OneLine(HexByte(byte))
  {
  }

  /** The lines of a data item, joined. */
  function JoinedBody(text: string): string
    requires text != "" && AllTextCharacters(text)
  {
    var first := BYTE_PREFIX + HexByte(Code(text[0]));
    if |text| == 1 then first + "u)" else first + "u), " + JoinedBody(text[1..])
  }

  lemma ByteIsPlain(c: char)
    requires IsTextCharacter(c)
    ensures OneLine(BYTE_PREFIX + HexByte(Code(c)) + "u)") && OneLine(BYTE_PREFIX + HexByte(Code(c)) + "u), ")
  {
    hide HexByte;
    hide Code;
    HexByteIsPlain(Code(c));
    assert OneLine(BYTE_PREFIX);
  }

  lemma LastByteLine(first: string, rest: string)
    requires OneLine(first + "u)")
    ensures FirstLine(first + BYTE_SUFFIX_FINAL + rest) == (first + "u)", rest)
  {
    hide FirstLine;
    hide OneLine;
    assert first + BYTE_SUFFIX_FINAL + rest == first + "u)" + ("\n" + rest);
    FirstLineOf(first + "u)", "\n" + rest);
    LineEnds(rest);
    assert first + "u)" + "" == first + "u)";
  }

  lemma NextByteLine(first: string, rest: string)
    requires OneLine(first + "u), ")
    ensures FirstLine(first + BYTE_SUFFIX_NEWLINE + rest) == (first + "u), " + FirstLine(rest).0, FirstLine(rest).1)
  {
    hide FirstLine;
    hide OneLine;
    assert first + BYTE_SUFFIX_NEWLINE + rest == first + "u), " + ("\\\n" + rest);
    FirstLineOf(first + "u), ", "\\\n" + rest);
    LineEnds(rest);
  }

  lemma {:induction false} DataBodyIsOneLine(text: string, rest: string)
    requires text != "" && AllTextCharacters(text)
    ensures FirstLine(DataBody(text) + rest) == (JoinedBody(text), rest)
  {
    hide FirstLine;
    hide HexByte;
    hide Code;
    hide OneLine;
    var first := BYTE_PREFIX + HexByte(Code(text[0]));
    ByteIsPlain(text[0]);
    if |text| == 1 {
      LastByteLine(first, rest);
    } else {
      NextByteLine(first, DataBody(text[1..]) + rest);
      Associate(first + BYTE_SUFFIX_NEWLINE, DataBody(text[1..]), rest);
      DataBodyIsOneLine(text[1..], rest);
    }
  }

  lemma ReadsByte(c: char, suffix: string, rest: string)
    requires IsTextCharacter(c) && forall i :: 0 <= i < |suffix| ==> suffix[i] != 'x'
    ensures HexNumbers(BYTE_PREFIX + HexByte(Code(c)) + suffix + rest) == [Code(c)] + HexNumbers(rest)
  {
    hide HexNumbers;
    hide HexByte;
    var prefix := "   TUX64_LITERAL_UINT8(0";
    assert BYTE_PREFIX == prefix + "x";
    ReadsLine(prefix, Code(c), suffix, rest);
  }

  lemma {:induction false} JoinedReadsBack(text: string)
    requires text != "" && AllTextCharacters(text)
    ensures HexNumbers(JoinedBody(text)) == Codes(text)
  {
    hide HexNumbers;
    hide HexByte;
    hide Code;
    var first := BYTE_PREFIX + HexByte(Code(text[0]));
    if |text| == 1 {
      ReadsByte(text[0], "u)", "");
      assert first + "u)" + "" == first + "u)";
      NoNumbers();
      assert Codes(text) == [Code(text[0])];
    } else {
      ReadsByte(text[0], "u), ", JoinedBody(text[1..]));
      JoinedReadsBack(text[1..]);
      assert Codes(text) == [Code(text[0])] + Codes(text[1..]);
    }
  }

  lemma {:induction false} FirstBlankOf(name: string, rest: string)
    requires IsName(name)
    ensures FirstBlank(name + " " + rest) == |name|
  {
    if name == "" {
      assert (name + " " + rest)[0] == ' ';
    } else {
      assert (name + " " + rest)[1..] == name[1..] + " " + rest;
      FirstBlankOf(name[1..], rest);
    }
  }

  /** A definition on one line: its name, and its numbers. */
  lemma MacroOfDefinition(name: string, body: string)
    requires IsName(name)
    ensures MacroOf("#define " + name + " " + body) == Some(Macro(name, HexNumbers(body)))
  {
    var line, rest := "#define " + name + " " + body, name + " " + body;
    assert line == "#define " + rest;
    assert line[8..] == rest;
    FirstBlankOf(name, body);
    assert rest[..|name|] == name && rest[|name|..] == " " + body;
    SkipsPlain(" ", body);
  }

  /** A definition whose body is one logical line. */
  lemma DefinitionIsRead(name: string, body: string, joined: string, rest: string)
    requires IsName(name) && FirstLine(body + rest) == (joined, rest)
    ensures Macros(Define(name) + body + rest) == [Macro(name, HexNumbers(joined))] + Macros(rest)
  {
    hide FirstLine;
    hide MacroOf;
    var source := Define(name) + body + rest;
    assert source == "#define " + name + " " + ("\\\n" + (body + rest));
    FirstLineOf("#define " + name + " ", "\\\n" + (body + rest));
    LineEnds(body + rest);
    var line := "#define " + name + " " + joined;
    assert FirstLine(source) == (line, rest);
    MacroOfDefinition(name, joined);
    assert Lines(source) == [line] + Lines(rest);
    assert ([line] + Lines(rest))[1..] == Lines(rest);
  }

  lemma IntegerBodyIsOneLine(n: nat, rest: string)
    requires n < 256
    ensures FirstLine(IntegerBody(n) + rest) == (INTEGER_PREFIX + HexByte(n) + "u", rest)
    ensures HexNumbers(INTEGER_PREFIX + HexByte(n) + "u") == [n]
  {
    hide FirstLine;
    hide HexNumbers;
    HexByteIsPlain(n);
    var line := INTEGER_PREFIX + HexByte(n) + "u";
    assert IntegerBody(n) + rest == line + ("\n" + rest);
    FirstLineOf(line, "\n" + rest);
    LineEnds(rest);
    assert line + "" == line;
    assert INTEGER_PREFIX == "   0" + "x";
    assert line == ("   0" + "x") + HexByte(n) + "u" + "";
    ReadsLine("   0", n, "u", "");
    NoNumbers();
  }

  lemma StringIsRead(s: Source, rest: string)
    requires Printable(s) && Named(s)
    ensures Macros(PrintString(s) + rest)
         == [Macro(s.data, Codes(s.text)), Macro(s.length, [|s.text|])] + Macros(rest)
  {
    hide FirstLine;
    hide HexNumbers;
    hide Macros;
    hide Define;
    hide DataBody;
    hide IntegerBody;
    hide JoinedBody;
    var integer := Define(s.length) + IntegerBody(|s.text|) + rest;
    assert PrintString(s) + rest == Define(s.data) + DataBody(s.text) + integer;
    DataBodyIsOneLine(s.text, integer);
    JoinedReadsBack(s.text);
    DefinitionIsRead(s.data, DataBody(s.text), JoinedBody(s.text), integer);
    IntegerBodyIsOneLine(|s.text|, rest);
    DefinitionIsRead(s.length, IntegerBody(|s.text|), INTEGER_PREFIX + HexByte(|s.text|) + "u", rest);
  }

  /** The generated source defines, for each string in order, its text under one name and its length under the other. */
  lemma {:induction false} StringsAreRead(strings: seq<Source>)
    requires forall i :: 0 <= i < |strings| ==> Printable(strings[i]) && Named(strings[i])
    ensures Macros(PrintStrings(strings)) == Meaning(strings)
  {
    hide Macros;
    hide PrintString;
    hide Codes;
    if strings == [] {
      NoMacros();
    } else {
      StringIsRead(strings[0], PrintStrings(strings[1..]));
      StringsAreRead(strings[1..]);
    }
  }

  lemma NoMacros()
    ensures Macros("") == []
  {
  }

  // ----- The length, calculated beforehand -----

  function DefineLength(identifier: string): nat {
    |DEFINE_PREFIX| + |identifier| + |DEFINE_SUFFIX|
  }

  function StringDataLength(identifier: string, characters: nat): nat
    requires characters > 0
  {
    DefineLength(identifier)
    + (characters - 1) * (|BYTE_PREFIX| + 2 + |BYTE_SUFFIX_NEWLINE|) + (|BYTE_PREFIX| + 2 + |BYTE_SUFFIX_FINAL|)
  }

  function IntegerLength(identifier: string): nat {
    DefineLength(identifier) + |INTEGER_PREFIX| + 2 + |INTEGER_SUFFIX|
  }

  lemma {:induction false} DataBodyLength(text: string)
    requires text != "" && AllTextCharacters(text)
    ensures |DataBody(text)|
         == (|text| - 1) * (|BYTE_PREFIX| + 2 + |BYTE_SUFFIX_NEWLINE|) + (|BYTE_PREFIX| + 2 + |BYTE_SUFFIX_FINAL|)
  {
    if |text| > 1 {
      DataBodyLength(text[1..]);
      assert |DataBody(text)| == |BYTE_PREFIX| + 2 + |BYTE_SUFFIX_NEWLINE| + |DataBody(text[1..])|;
    }
  }

  lemma StringLength(s: Source)
    requires Printable(s)
    ensures StringDataLength(s.data, |s.text|) + IntegerLength(s.length) == |PrintString(s)|
  {
    DataBodyLength(s.text);
  }

  lemma {:induction false} PrintStringsAppend(strings: seq<Source>, n: nat)
    requires n < |strings| && forall i :: 0 <= i < |strings| ==> Printable(strings[i])
    ensures PrintStrings(strings[..n + 1]) == PrintStrings(strings[..n]) + PrintString(strings[n])
  {
    hide PrintString;
    if n == 0 {
      assert strings[..1] == [strings[0]] && [strings[0]][1..] == [];
    } else {
      PrintStringsAppend(strings[1..], n - 1);
      assert strings[..n + 1][1..] == strings[1..][..n] && strings[..n][1..] == strings[1..][..n - 1];
    }
  }

  lemma AddWrapped(a: nat, b: nat)
    ensures (a % U32 + b) % U32 == (a + b) % U32
  {
  }

  /** The 32-bit length is that of the output, up to wrapping. */
  method CalculateOutputLength(prelude: string, strings: seq<Source>) returns (length: nat)
    requires strings != [] && forall i :: 0 <= i < |strings| ==> Printable(strings[i])
    ensures length == |prelude + PrintStrings(strings)| % U32
  {
    hide PrintString;
    hide StringDataLength;
    hide IntegerLength;
    length := |prelude| % U32;
    var i := 0;
    while i < |strings|
      invariant i <= |strings| && length == |prelude + PrintStrings(strings[..i])| % U32
    {
      StringLength(strings[i]);
      PrintStringsAppend(strings, i);
      AddWrapped(|prelude + PrintStrings(strings[..i])|, |PrintString(strings[i])|);
      length := (length + (StringDataLength(strings[i].data,
          |strings[i].text|) + IntegerLength(strings[i].length))) % U32;
      i := i + 1;
    }
    assert strings[..i] == strings;
  }

  // ----- The output itself -----

  method Write(output: array<char>, at: nat, s: string) returns (pen: nat)
    requires at + |s| <= output.Length
    modifies output
    ensures pen == at + |s| && output[..pen] == old(output[..at]) + s
  {
    forall i | 0 <= i < |s| {
      output[at + i] := s[i];
    }
    pen := at + |s|;
  }

  method GenerateByte(output: array<char>, at: nat, byte: nat) returns (pen: nat)
    requires byte < 256 && at + 2 <= output.Length
    modifies output
    ensures pen == at + |HexByte(byte)| && output[..pen] == old(output[..at]) + HexByte(byte)
  {
    output[at] := EncodeNibble(byte / 16);
    output[at + 1] := EncodeNibble(byte % 16);
    pen := at + 2;
  }

  method GenerateDefine(output: array<char>, at: nat, identifier: string) returns (pen: nat)
    requires at + |Define(identifier)| <= output.Length
    modifies output
    ensures pen == at + |Define(identifier)| && output[..pen] == old(output[..at]) + Define(identifier)
  {
    pen := Write(output, at, DEFINE_PREFIX);
    pen := Write(output, pen, identifier);
    pen := Write(output, pen, DEFINE_SUFFIX);
  }

  method GenerateStringCharacter(output: array<char>, at: nat, c: char, suffix: string) returns (pen: nat)
    requires IsTextCharacter(c) && at + |ByteLine(c, suffix)| <= output.Length
    modifies output
    ensures pen == at + |ByteLine(c, suffix)| && output[..pen] == old(output[..at]) + ByteLine(c, suffix)
  {
    pen := Write(output, at, BYTE_PREFIX);
    pen := GenerateByte(output, pen, Code(c));
    pen := Write(output, pen, suffix);
  }

  lemma DataBodyFirst(text: string)
    requires text != "" && AllTextCharacters(text)
    ensures DataBody(text)
         == if |text| == 1 then ByteLine(text[0], BYTE_SUFFIX_FINAL)
            else ByteLine(text[0], BYTE_SUFFIX_NEWLINE) + DataBody(text[1..])
  {
    hide ByteLine;
  }

  lemma DataBodyStep(written: string, text: string)
    requires |text| > 1 && AllTextCharacters(text)
    ensures written + DataBody(text) == written + ByteLine(text[0], BYTE_SUFFIX_NEWLINE) + DataBody(text[1..])
  {
    hide DataBody;
    hide ByteLine;
    DataBodyFirst(text);
    Associate(written, ByteLine(text[0], BYTE_SUFFIX_NEWLINE), DataBody(text[1..]));
  }

  method GenerateStringBytes(output: array<char>, at: nat, text: string) returns (pen: nat)
    requires text != "" && AllTextCharacters(text) && at + |DataBody(text)| <= output.Length
    modifies output
    ensures pen == at + |DataBody(text)| && output[..pen] == old(output[..at]) + DataBody(text)
  {
    hide ByteLine;
    hide DataBody;
    ghost var whole := output[..at] + DataBody(text);
    var done: nat, i: nat := 0, |text| - 1;
    pen := at;
    assert text[0..] == text;
    while i != 0
      invariant done + i == |text| - 1 && pen <= output.Length
      invariant output[..pen] + DataBody(text[done..]) == whole
    {
      DataBodyStep(output[..pen], text[done..]);
      assert text[done..][1..] == text[done + 1..];
      pen := GenerateStringCharacter(output, pen, text[done], BYTE_SUFFIX_NEWLINE);
      i := i - 1;
      done := done + 1;
    }
    DataBodyFirst(text[done..]);
    pen := GenerateStringCharacter(output, pen, text[done], BYTE_SUFFIX_FINAL);
  }

  method GenerateInteger(output: array<char>, at: nat, identifier: string, n: nat) returns (pen: nat)
    requires n < 256 && at + |Define(identifier) + IntegerBody(n)| <= output.Length
    modifies output
    ensures pen == at + |Define(identifier) + IntegerBody(n)|
    ensures output[..pen] == old(output[..at]) + (Define(identifier) + IntegerBody(n))
  {
    hide Define;
    pen := GenerateDefine(output, at, identifier);
    pen := Write(output, pen, INTEGER_PREFIX);
    pen := GenerateByte(output, pen, n);
    pen := Write(output, pen, INTEGER_SUFFIX);
  }

  method GenerateString(output: array<char>, at: nat, s: Source) returns (pen: nat)
    requires Printable(s) && at + |PrintString(s)| <= output.Length
    modifies output
    ensures pen == at + |PrintString(s)| && output[..pen] == old(output[..at]) + PrintString(s)
  {
    hide Define;
    hide DataBody;
    hide IntegerBody;
    pen := GenerateDefine(output, at, s.data);
    pen := GenerateStringBytes(output, pen, s.text);
    pen := GenerateInteger(output, pen, s.length, |s.text|);
  }

  /** The output up to a string. */
  function Front(prelude: string, strings: seq<Source>, n: nat): string
    requires n <= |strings| && forall i :: 0 <= i < |strings| ==> Printable(strings[i])
  {
    prelude + PrintStrings(strings[..n])
  }

  lemma FrontStep(prelude: string, strings: seq<Source>, n: nat)
    requires n < |strings| && forall i :: 0 <= i < |strings| ==> Printable(strings[i])
    ensures Front(prelude, strings, n + 1) == Front(prelude, strings, n) + PrintString(strings[n])
  {
    hide PrintString;
    PrintStringsAppend(strings, n);
  }

  lemma {:induction false} FrontGrows(prelude: string, strings: seq<Source>, n: nat)
    requires n <= |strings| && forall i :: 0 <= i < |strings| ==> Printable(strings[i])
    ensures |Front(prelude, strings, n)| <= |Front(prelude, strings, |strings|)|
    decreases |strings| - n
  {
    hide Front;
    hide PrintString;
    if n < |strings| {
      FrontStep(prelude, strings, n);
      FrontGrows(prelude, strings, n + 1);
    }
  }

  /** The buffer is as long as calculated, and is filled to the last character. */
  method Generate(prelude: string, strings: seq<Source>) returns (output: array<char>)
    requires strings != [] && forall i :: 0 <= i < |strings| ==> Printable(strings[i])
    requires |prelude + PrintStrings(strings)| < U32
    ensures output[..] == prelude + PrintStrings(strings)
    ensures (forall i :: 0 <= i < |strings| ==> Named(strings[i])) ==> Macros(output[|prelude|..]) == Meaning(strings)
  {
    hide Macros;
    hide PrintString;
    hide Printable;
    FrontIsAll(prelude, strings);
    hide PrintStrings;
    hide Front;
    var length := CalculateOutputLength(prelude, strings);
    output := new char[length](_ => ' ');
    GenerateAllocated(prelude, strings, output);
    assert output[|prelude|..] == output[..][|prelude|..] == PrintStrings(strings);
    if forall i :: 0 <= i < |strings| ==> Named(strings[i]) {
      StringsAreRead(strings);
    }
  }

  lemma FrontIsAll(prelude: string, strings: seq<Source>)
    requires forall i :: 0 <= i < |strings| ==> Printable(strings[i])
    ensures Front(prelude, strings, |strings|) == prelude + PrintStrings(strings)
  {
    hide PrintStrings;
    hide PrintString;
    hide Printable;
    assert strings[..|strings|] == strings;
  }

  method GenerateAllocated(prelude: string, strings: seq<Source>, output: array<char>)
    requires strings != [] && forall i :: 0 <= i < |strings| ==> Printable(strings[i])
    requires output.Length == |Front(prelude, strings, |strings|)|
    modifies output
    ensures output[..] == Front(prelude, strings, |strings|)
  {
    assert Front(prelude, strings, 0) == prelude;
    hide Front;
    hide PrintString;
    FrontGrows(prelude, strings, 0);
    var pen: nat := Write(output, 0, prelude);
    var i: nat := 0;
    while i < |strings|
      invariant i <= |strings| && pen <= output.Length && output[..pen] == Front(prelude, strings, i)
    {
      FrontStep(prelude, strings, i);
      FrontGrows(prelude, strings, i + 1);
      pen := GenerateString(output, pen, strings[i]);
      i := i + 1;
    }
    assert output[..pen] == output[..];
  }

  // ----- From string file to C source -----

  predicate EntryInside(raw: string, e: Entry) {
    Inside(raw, e.data) && Inside(raw, e.length) && Inside(raw, e.text)
  }

  /** What the formatter finds where an entry's slices point. */
  function SourceOf(raw: string, e: Entry): Source
    requires EntryInside(raw, e)
  {
    Source(Cut(raw, e.data), Cut(raw, e.length), Cut(raw, e.text))
  }

  /** The formatter reads nothing outside the file, and no character it has no code for. */
  predicate Formattable(raw: string, e: Entry) {
    EntryInside(raw, e) && Printable(SourceOf(raw, e))
  }

  predicate AllFormattable(raw: string, entries: seq<Entry>) {
    forall i :: 0 <= i < |entries| ==> Formattable(raw, entries[i])
  }

  function SourcesOf(raw: string, entries: seq<Entry>): (sources: seq<Source>)
    requires AllFormattable(raw, entries)
    ensures |sources| == |entries| && forall i :: 0 <= i < |sources| ==> sources[i] == SourceOf(raw, entries[i])
    ensures forall i :: 0 <= i < |sources| ==> Printable(sources[i])
  {
    seq(|entries|, i requires 0 <= i < |entries| => SourceOf(raw, entries[i]))
  }

  /** The slices of an entry lie in the file, and its text holds neither newline nor quotation mark. */
  predicate Clean(raw: string, e: Entry) {
    EntryInside(raw, e) && '\n' !in Cut(raw, e.text) && '\"' !in Cut(raw, e.text)
  }

  /**
   For every accepted file: an entry can be formatted exactly when its slices lie in the file and its text
   holds neither newline nor quotation mark. Every other character has been filtered by the lexer.
   */
  lemma FormattableIffClean(raw: string, i: nat)
    requires Parse(raw).state == Exited(Ok) && i < |Parse(raw).entries|
    ensures Formattable(raw, Parse(raw).entries[i]) <==> Clean(raw, Parse(raw).entries[i])
  {
    hide Parse;
    var e := Parse(raw).entries[i];
    AcceptedSliceIsValueIff(raw, i, Text);
    assert e.Get(Text) == e.text;
  }

  /** If no field is given a second value, all that can go wrong is a text over several lines. */
  lemma UnrepeatedIsFormattableIff(raw: string, i: nat)
    requires Parse(raw).state == Exited(Ok) && i < |Parse(raw).entries| && NeverRepeats(raw, START)
    ensures var e := Parse(raw).entries[i];
            EntryInside(raw, e) && (Formattable(raw, e) <==> '\n' !in Cut(raw, e.text))
  {
    hide Parse;
    hide NeverRepeats;
    var e := Parse(raw).entries[i];
    UnrepeatedSlicesAreInside(raw, i, Data);
    UnrepeatedSlicesAreInside(raw, i, Length);
    UnrepeatedSliceIsValueIff(raw, i, Text);
    assert e.Get(Data) == e.data && e.Get(Length) == e.length && e.Get(Text) == e.text;
  }

  /** The length of the output for one string, at most. */
  lemma StringIsShort(s: Source, n: nat)
    requires Printable(s) && |s.data| <= n && |s.length| <= n
    ensures |PrintString(s)| <= 2 * n + 9000
  {
    StringLength(s);
  }

  lemma {:induction false} StringsAreShort(strings: seq<Source>, n: nat)
    requires forall i :: 0 <= i < |strings| ==> Printable(strings[i])
    requires forall i :: 0 <= i < |strings| ==> |strings[i].data| <= n && |strings[i].length| <= n
    ensures |PrintStrings(strings)| <= |strings| * (2 * n + 9000)
  {
    hide PrintString;
    hide Printable;
    if strings != [] {
      StringIsShort(strings[0], n);
      StringsAreShort(strings[1..], n);
      OneMore(|strings|, 2 * n + 9000);
    }
  }

  lemma OneMore(count: nat, each: nat)
    requires count > 0
    ensures each + (count - 1) * each == count * each
  {
  }

  /** The calculated length does not wrap for any file of up to sixty million characters. */
  lemma LengthNeverWraps(prelude: string, raw: string)
    requires Parse(raw).state == Exited(Ok) && AllFormattable(raw, Parse(raw).entries)
    requires |raw| <= 60_000_000 && |prelude| <= 1_000_000
    ensures |prelude + PrintStrings(SourcesOf(raw, Parse(raw).entries))| < U32
  {
    hide PrintStrings;
    NoFileHasMoreEntries(raw);
    hide Parse;
    var sources := SourcesOf(raw, Parse(raw).entries);
    StringsAreShort(sources, |raw|);
    MostIsEnough(|sources|, 2 * |raw| + 9000);
  }

  lemma MostIsEnough(count: nat, each: nat)
    requires count <= 33 && each <= 120_009_000
    ensures count * each <= 3_960_297_000
  {
  }

  /** From a string file to C source, as the compiler does it: status of the lexer, output of the formatter. */
  method CompileText(prelude: string, raw: string) returns (status: Status, output: array<char>)
    requires Parse(raw).state == Exited(Ok) ==>
               && (forall i :: 0 <= i < |Parse(raw).entries| ==> Clean(raw, Parse(raw).entries[i]))
               && (AllFormattable(raw, Parse(raw).entries) ==>
                     |prelude + PrintStrings(SourcesOf(raw, Parse(raw).entries))| < U32)
    ensures status == Parse(raw).state.status
    ensures status == Ok ==>
              && AllFormattable(raw, Parse(raw).entries)
              && output[..] == prelude + PrintStrings(SourcesOf(raw, Parse(raw).entries))
              && ((forall i :: 0 <= i < |Parse(raw).entries| ==> Named(SourcesOf(raw, Parse(raw).entries)[i])) ==>
                    Macros(output[|prelude|..]) == Meaning(SourcesOf(raw, Parse(raw).entries)))
  {
    hide Parse;
    hide Clean;
    hide Formattable;
    var fsm := new LexerFsm.Fsm(raw);
    status := fsm.Parse();
    if status != Ok {
      output := new char[0];
      return;
    }
    forall i | 0 <= i < |Parse(raw).entries| ensures Formattable(raw, Parse(raw).entries[i]) {
      FormattableIffClean(raw, i);
    }
    output := Generate(prelude, SourcesOf(raw, fsm.entries));
  }

  /** The entries of a printed file are cut out of it as they were printed, and can be formatted. */
  lemma PrintedFilesAreFormatted(sources: seq<Source>, layouts: seq<EntryLayout>, trailing: string)
    requires ValidFile(sources, layouts, trailing) && 0 < |sources| <= MAX_ENTRIES
    ensures var raw := PrintFile(sources, layouts, trailing);
            && Parse(raw).state == Exited(Ok) && AllFormattable(raw, Parse(raw).entries)
            && SourcesOf(raw, Parse(raw).entries) == sources
  {
    hide Parse;
    hide PrintFile;
    RoundTripIff(sources, layouts, trailing);
    var raw := PrintFile(sources, layouts, trailing);
    var entries := Parse(raw).entries;
    forall i | 0 <= i < |entries| ensures EntryInside(raw, entries[i]) && SourceOf(raw, entries[i]) == sources[i] {
      assert ReadsEntry(raw, entries[i], sources[i]);
      ReadIsCut(raw, entries[i], sources[i]);
    }
    assert forall i :: 0 <= i < |entries| ==> Printable(sources[i]);
  }

  lemma ReadIsCut(raw: string, entry: Entry, source: Source)
    requires ReadsEntry(raw, entry, source)
    ensures EntryInside(raw, entry) && SourceOf(raw, entry) == source
  {
    assert Reads(raw, entry.Get(Data), source.Value(Data));
    assert Reads(raw, entry.Get(Length), source.Value(Length));
    assert Reads(raw, entry.Get(Text), source.Value(Text));
  }
}
