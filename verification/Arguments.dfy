/** Argument and configuration-file parsing (lib/src/tux64/arguments.c, lib/src/tux64/string.c). */
module Arguments {
  import opened Common
  import opened Strings

  // ----- The lines of a configuration file -----

  /** Where the first newline is, or the length if there is none. */
  function FirstNewline(s: string): (p: nat)
    ensures p <= |s| && (p < |s| ==> s[p] == '\n') && forall i :: 0 <= i < p ==> s[i] != '\n'
  {
    if s == "" || s[0] == '\n' then 0 else 1 + FirstNewline(s[1..])
  }

  function Lines(s: string): seq<string>
    decreases |s|
  {
    if s == "" then []
    else
      var p := FirstNewline(s);
      [s[..p]] + if p == |s| then [] else Lines(s[p + 1..])
  }

  function Joined(lines: seq<string>): string {
    if lines == [] then "" else if |lines| == 1 then lines[0] else lines[0] + "\n" + Joined(lines[1..])
  }

  /** The lines hold no newlines, and with newlines between them they are the file, but for a newline at its end. */
  ghost predicate LinesOf(lines: seq<string>, s: string) {
    && (forall i :: 0 <= i < |lines| ==> '\n' !in lines[i])
    && (lines == [] <==> s == "")
    && s == Joined(lines) + if s != "" && s[|s| - 1] == '\n' then "\n" else ""
  }

  lemma {:induction false} LinesMakeTheFile(s: string)
    ensures LinesOf(Lines(s), s)
    decreases |s|
  {
    hide FirstNewline;
    hide LinesOf;
    hide Joined;
    if s == "" {
      NoLines();
    } else {
      var p := FirstNewline(s);
      if p < |s| {
        LinesMakeTheFile(s[p + 1..]);
        LineInFront(s[..p], s[p + 1..], Lines(s[p + 1..]));
        assert s == s[..p] + "\n" + s[p + 1..];
        assert Lines(s) == [s[..p]] + Lines(s[p + 1..]);
      } else {
        LastLine(s);
        assert s[..p] == s;
        assert Lines(s) == [s];
      }
    }
  }

  lemma NoLines()
    ensures LinesOf([], "")
  {
  }

  lemma LastLine(s: string)
    requires s != "" && '\n' !in s
    ensures LinesOf([s], s)
  {
  }

  lemma LineInFront(line: string, rest: string, others: seq<string>)
    requires '\n' !in line && LinesOf(others, rest)
    ensures LinesOf([line] + others, line + "\n" + rest)
  {
    var lines := [line] + others;
    assert lines[1..] == others;
    if others != [] {
      assert Joined(lines) == line + "\n" + Joined(others);
      assert rest == Joined(others) + if rest[|rest| - 1] == '\n' then "\n" else "";
    }
  }

  function TrimLeft(s: string): string {
    if s != "" && IsWhitespace(s[0]) then TrimLeft(s[1..]) else s
  }

  function TrimRight(s: string): string {
    if s != "" && IsWhitespace(s[|s| - 1]) then TrimRight(s[..|s| - 1]) else s
  }

  function Trim(s: string): string {
    TrimRight(TrimLeft(s))
  }

  lemma {:induction false} TrimLeftIsSuffix(s: string) returns (front: string)
    ensures s == front + TrimLeft(s) && AllWhitespace(front)
    ensures TrimLeft(s) == "" || !IsWhitespace(TrimLeft(s)[0])
  {
    if s != "" && IsWhitespace(s[0]) {
      front := TrimLeftIsSuffix(s[1..]);
      front := [s[0]] + front;
    } else {
      front := "";
    }
  }

  lemma {:induction false} TrimRightIsPrefix(s: string) returns (back: string)
    ensures s == TrimRight(s) + back && AllWhitespace(back)
    ensures TrimRight(s) == "" || !IsWhitespace(TrimRight(s)[|TrimRight(s)| - 1])
    decreases |s|
  {
    if s != "" && IsWhitespace(s[|s| - 1]) {
      back := TrimRightIsPrefix(s[..|s| - 1]);
      assert s == s[..|s| - 1] + [s[|s| - 1]];
      back := back + [s[|s| - 1]];
    } else {
      back := "";
    }
  }

  /** Trimming takes whitespace off both ends, all of it and nothing else. */
  lemma TrimIsExact(s: string) returns (front: string, back: string)
    ensures s == front + Trim(s) + back && AllWhitespace(front) && AllWhitespace(back)
    ensures Trim(s) == "" || (!IsWhitespace(Trim(s)[0]) && !IsWhitespace(Trim(s)[|Trim(s)| - 1]))
  {
    front := TrimLeftIsSuffix(s);
    back := TrimRightIsPrefix(TrimLeft(s));
    assert s == front + (Trim(s) + back);
    assert Trim(s) != "" ==> Trim(s)[0] == TrimLeft(s)[0];
  }

  predicate Kept(line: string, commentPrefix: char) {
    line != "" && line[0] != commentPrefix
  }

  /** The arguments of a configuration file: its lines, trimmed, without the empty ones and the comments. */
  function Filtered(lines: seq<string>, commentPrefix: char): seq<string> {
    if lines == [] then []
    else (if Kept(Trim(lines[0]), commentPrefix) then [Trim(lines[0])] else []) + Filtered(lines[1..], commentPrefix)
  }

  function ConfigArguments(s: string, commentPrefix: char): seq<string> {
    Filtered(Lines(s), commentPrefix)
  }

  lemma FilteredFirst(line: string, rest: seq<string>, commentPrefix: char)
    ensures Filtered([line] + rest, commentPrefix)
         == (if Kept(Trim(line), commentPrefix) then [Trim(line)] else []) + Filtered(rest, commentPrefix)
  {
    assert ([line] + rest)[1..] == rest;
  }

  lemma ConfigStep(s: string, commentPrefix: char)
    requires s != ""
    ensures var p := FirstNewline(s);
            var line, rest := Trim(s[..p]), ConfigArguments(if p == |s| then "" else s[p + 1..], commentPrefix);
            ConfigArguments(s, commentPrefix) == if Kept(line, commentPrefix) then [line] + rest else rest
  {
    hide Trim;
    hide FirstNewline;
    hide Filtered;
    var p := FirstNewline(s);
    FilteredFirst(s[..p], if p == |s| then [] else Lines(s[p + 1..]), commentPrefix);
  }

  /** A line by itself is an argument without the whitespace around it, if anything is left and that is no comment. */
  lemma LineIsArgument(line: string, commentPrefix: char)
    requires '\n' !in line
    ensures ConfigArguments(line, commentPrefix)
         == if Trim(line) == "" || Trim(line)[0] == commentPrefix then [] else [Trim(line)]
  {
    BlankLine(commentPrefix);
    if line != "" {
      hide Trim;
      ConfigStep(line, commentPrefix);
      assert line[..FirstNewline(line)] == line;
    }
  }

  /** The arguments of a file are those of its lines, in order. */
  lemma LinesAreArguments(line: string, rest: string, commentPrefix: char)
    requires '\n' !in line
    ensures ConfigArguments(line + "\n" + rest, commentPrefix)
         == ConfigArguments(line, commentPrefix) + ConfigArguments(rest, commentPrefix)
  {
    hide Filtered;
    hide Kept;
    hide Trim;
    var s := line + "\n" + rest;
    NewlineIsFirst(line, rest);
    ConfigStep(s, commentPrefix);
    assert s[..|line|] == line && s[|line| + 1..] == rest;
    BlankLine(commentPrefix);
    if line != "" {
      ConfigStep(line, commentPrefix);
      assert line[..FirstNewline(line)] == line;
    }
  }

  lemma NewlineIsFirst(line: string, rest: string)
    requires '\n' !in line
    ensures FirstNewline(line + "\n" + rest) == |line| && FirstNewline(line) == |line|
  {
    var s := line + "\n" + rest;
    assert s[|line|] == '\n' && forall i :: 0 <= i < |line| ==> s[i] == line[i];
  }

  lemma BlankLine(commentPrefix: char)
    ensures Trim("") == "" && !Kept("", commentPrefix) && ConfigArguments("", commentPrefix) == []
  {
  }

  class ConfigFile {
    const commentPrefix: char
    var slice: string

    constructor (commentPrefix: char, data: string)
      ensures this.commentPrefix == commentPrefix && slice == data
    {
      this.commentPrefix, slice := commentPrefix, data;
    }

    /** What is still to come. */
    function Remaining(): seq<string>
      reads this
    {
      ConfigArguments(slice, commentPrefix)
    }

    method NextLine() returns (line: Option<string>)
      modifies this`slice
      ensures line == None <==> old(slice) == ""
      ensures line.Some? ==> var p := FirstNewline(old(slice));
                             && line.value == old(slice)[..p]
                             && slice == if p == |old(slice)| then "" else old(slice)[p + 1..]
      ensures line == None ==> slice == old(slice)
    {
      if slice == "" {
        return None;
      }
      var p: nat := 0;
      assert slice[0..] == slice;
      while p != |slice| && slice[p] != '\n'
        invariant p <= |slice| && FirstNewline(slice) == p + FirstNewline(slice[p..])
      {
        assert slice[p..][1..] == slice[p + 1..];
        p := p + 1;
      }
      line := Some(slice[..p]);
      slice := if p == |slice| then "" else slice[p + 1..];
    }

    method TrimWhitespace(s: string) returns (r: string)
      ensures r == Trim(s)
    {
      r := s;
      while r != "" && IsWhitespace(r[0])
        invariant TrimLeft(r) == TrimLeft(s)
        decreases |r|
      {
        r := r[1..];
      }
      while r != "" && IsWhitespace(r[|r| - 1])
        invariant TrimRight(r) == TrimRight(TrimLeft(s))
        decreases |r|
      {
        r := r[..|r| - 1];
      }
    }

    /** Hands out the arguments one by one, in order, until there are none. */
    method Next() returns (argument: Option<string>)
      modifies this`slice
      ensures if old(Remaining()) == [] then argument == None
              else argument == Some(old(Remaining())[0]) && Remaining() == old(Remaining())[1..]
      ensures argument == None ==> Remaining() == []
      ensures |slice| <= old(|slice|)
    {
      while true
        invariant Remaining() == old(Remaining()) && |slice| <= old(|slice|)
        decreases |slice|
      {
        ghost var before := slice;
        var line := NextLine();
        if line == None {
          return None;
        }
        ConfigStep(before, commentPrefix);
        var trimmed := TrimWhitespace(line.value);
        if trimmed == "" {
          continue;
        }
        if trimmed[0] == commentPrefix {
          continue;
        }
        return Some(trimmed);
      }
    }
  }

  // ----- Options -----

  datatype OptionNames = OptionNames(long: seq<string>, short: string)

  datatype ArgumentsList = ArgumentsList(required: seq<OptionNames>, optional: seq<OptionNames>,
                                         prefixLong: string, prefixShort: string, splitToken: char)

  datatype PrefixType = NoPrefix | LongPrefix | ShortPrefix

  datatype Tokens = Tokens(prefixType: PrefixType, identifier: string, parameter: string)

  function PrefixOf(list: ArgumentsList, argument: string): PrefixType {
    if list.prefixLong <= argument then LongPrefix
    else if list.prefixShort <= argument then ShortPrefix
    else NoPrefix
  }

  function FirstToken(s: string, token: char): (p: nat)
    ensures p <= |s| && (p < |s| ==> s[p] == token) && forall i :: 0 <= i < p ==> s[i] != token
  {
    if s == "" || s[0] == token then 0 else 1 + FirstToken(s[1..], token)
  }

  /** An argument is a prefix, an identifier, and what follows the split token. */
  function Tokenize(list: ArgumentsList, argument: string): Tokens {
    var prefix := PrefixOf(list, argument);
    var rest := match prefix
                case LongPrefix => argument[|list.prefixLong|..]
                case ShortPrefix => argument[|list.prefixShort|..]
                case NoPrefix => argument;
    var p := FirstToken(rest, list.splitToken);
    Tokens(prefix, rest[..p], if p == |rest| then "" else rest[p + 1..])
  }

  /** How an argument is written: a prefix, an identifier without the split token, and perhaps a parameter. */
  function Written(prefix: string, identifier: string, splitToken: char, parameter: Option<string>): string {
    prefix + identifier + if parameter.Some? then [splitToken] + parameter.value else ""
  }

  lemma {:induction false} FirstTokenOf(s: string, token: char, rest: string)
    requires token !in s
    ensures FirstToken(s, token) == |s| && FirstToken(s + [token] + rest, token) == |s|
  {
    if s == "" {
      assert ("" + [token] + rest)[0] == token;
    } else {
      assert (s + [token] + rest)[1..] == s[1..] + [token] + rest;
      FirstTokenOf(s[1..], token, rest);
    }
  }

  /** The parts of an argument are found again: an identifier, and whatever is behind the first split token. */
  lemma WrittenIsTokenized(list: ArgumentsList, prefix: string, identifier: string, parameter: Option<string>)
    requires list.splitToken !in identifier
    requires prefix == list.prefixLong
             || (prefix == list.prefixShort
                 && !(list.prefixLong <= Written(prefix, identifier, list.splitToken, parameter)))
    ensures Tokenize(list, Written(prefix, identifier, list.splitToken, parameter))
         == Tokens(if prefix == list.prefixLong then LongPrefix else ShortPrefix, identifier,
                   if parameter.Some? then parameter.value else "")
  {
    var argument := Written(prefix, identifier, list.splitToken, parameter);
    var tail := if parameter.Some? then [list.splitToken] + parameter.value else "";
    assert prefix <= argument && argument[|prefix|..] == identifier + tail;
    if parameter.Some? {
      FirstTokenOf(identifier, list.splitToken, parameter.value);
      assert identifier + tail == identifier + [list.splitToken] + parameter.value;
      assert (identifier + tail)[..|identifier|] == identifier;
      assert (identifier + tail)[|identifier| + 1..] == parameter.value;
    } else {
      FirstTokenOf(identifier, list.splitToken, "");
      assert identifier + tail == identifier;
    }
  }

  predicate IsMatch(option: OptionNames, tokens: Tokens) {
    if tokens.prefixType == LongPrefix then tokens.identifier in option.long
    else tokens.prefixType == ShortPrefix && |tokens.identifier| == 1 && tokens.identifier[0] in option.short
  }

  /** The first option that goes by the identifier, or the number of options. */
  function FirstMatch(options: seq<OptionNames>, tokens: Tokens): (i: nat)
    ensures i <= |options| && (i < |options| ==> IsMatch(options[i], tokens))
    ensures forall j :: 0 <= j < i ==> !IsMatch(options[j], tokens)
  {
    if options == [] || IsMatch(options[0], tokens) then 0 else 1 + FirstMatch(options[1..], tokens)
  }

  // ----- The bits of the options that were seen -----

  function Mask(bit: nat): bv8
    requires bit < 8
  {
    match bit case 0 => 1 case 1 => 2 case 2 => 4 case 3 => 8 case 4 => 16 case 5 => 32 case 6 => 64 case 7 => 128
  }

  predicate Bit(flags: bv8, bit: nat)
    requires bit < 8
  {
    flags & Mask(bit) != 0
  }

  predicate Seen(storage: seq<bv8>, i: nat)
    requires i < 8 * |storage|
  {
    Bit(storage[i / 8], i % 8)
  }

  /** The storage says of each of the first `count` options whether it is among the matched ones. */
  ghost predicate Records(storage: seq<bv8>, count: nat, matched: set<nat>) {
    count <= 8 * |storage| && forall i :: 0 <= i < count ==> (Seen(storage, i) <==> i in matched)
  }

  lemma SetBit(flags: bv8, bit: nat, other: nat)
    requires bit < 8 && other < 8
    ensures Bit(flags | Mask(bit), other) <==> other == bit || Bit(flags, other)
  {
    match bit case 0 => case 1 => case 2 => case 3 => case 4 => case 5 => case 6 => case 7 =>
  }

  lemma ShiftBit(flags: bv8, bit: nat)
    requires bit < 7
    ensures Bit(flags >> 1, bit) == Bit(flags, bit + 1)
  {
    match bit case 0 => case 1 => case 2 => case 3 => case 4 => case 5 => case 6 =>
  }

  function LowMask(bits: nat): bv8
    requires bits <= 8
  {
    match bits
    case 0 => 0 case 1 => 1 case 2 => 3 case 3 => 7 case 4 => 15 case 5 => 31 case 6 => 63 case 7 => 127 case 8 => 255
  }

  lemma LowMaskStep(flags: bv8, bits: nat)
    requires bits < 8
    ensures Covers(flags, LowMask(bits + 1)) <==> Covers(flags, LowMask(bits)) && Bit(flags, bits)
  {
    match bits case 0 => case 1 => case 2 => case 3 => case 4 => case 5 => case 6 => case 7 =>
  }

  predicate Covers(flags: bv8, mask: bv8) {
    flags & mask == mask
  }

  lemma LowMaskIff(flags: bv8, bits: nat)
    requires bits <= 8
    ensures flags & LowMask(bits) == LowMask(bits) <==> forall k :: 0 <= k < bits ==> Bit(flags, k)
  {
    CoversIff(flags, bits);
  }

  lemma {:induction false} CoversIff(flags: bv8, bits: nat)
    requires bits <= 8
    ensures Covers(flags, LowMask(bits)) <==> forall k :: 0 <= k < bits ==> Bit(flags, k)
  {
    hide *;
    if bits > 0 {
      LowMaskStep(flags, bits - 1);
      CoversIff(flags, bits - 1);
      LastBit(flags, bits);
    } else {
      NothingIsMasked(flags);
    }
  }

  lemma LastBit(flags: bv8, bits: nat)
    requires 0 < bits <= 8
    ensures (forall k :: 0 <= k < bits ==> Bit(flags, k))
       <==> (forall k :: 0 <= k < bits - 1 ==> Bit(flags, k)) && Bit(flags, bits - 1)
  {
    hide Bit;
  }

  lemma NothingIsMasked(flags: bv8)
    ensures Covers(flags, LowMask(0))
  {
  }

  /** Bytes of storage that the initialiser writes; the header asks callers for no more than needed. */
  function InitializedBytes(count: nat): nat {
    (count + 8) / 8
  }

  function NeededBytes(count: nat): nat {
    (count + 7) / 8
  }

  lemma InitializerFitsIff(count: nat)
    ensures InitializedBytes(count) <= NeededBytes(count) <==> count % 8 != 0
  {
  }

  method SetRequired(storage: array<bv8>, i: nat, ghost count: nat, ghost matched: set<nat>)
    requires i < count && Records(storage[..], count, matched)
    modifies storage
    ensures Records(storage[..], count, matched + {i})
  {
    var byte, bit := i / 8, i % 8;
    ghost var before := storage[..];
    storage[byte] := storage[byte] | Mask(bit);
    forall j | 0 <= j < count ensures Seen(storage[..], j) <==> j in matched + {i} {
      assert Seen(before, j) <==> j in matched;
      SetBit(before[byte], bit, j % 8);
    }
  }

  /** The lowest bit that is not set. */
  method FirstClear(flags: bv8) returns (bit: nat)
    requires exists k :: 0 <= k < 8 && !Bit(flags, k)
    ensures bit < 8 && !Bit(flags, bit) && forall k :: 0 <= k < bit ==> Bit(flags, k)
  {
    bit := 0;
    var rest := flags;
    while rest & 1 == 1
      invariant bit < 8 && forall k :: 0 <= k < bit ==> Bit(flags, k)
      invariant forall k :: 0 <= k < 8 - bit ==> (Bit(rest, k) <==> Bit(flags, bit + k))
      decreases 8 - bit
    {
      assert Bit(rest, 0);
      assert Bit(flags, bit + 0);
      ghost var before := rest;
      rest := rest >> 1;
      bit := bit + 1;
      forall k | 0 <= k < 8 - bit ensures Bit(rest, k) <==> Bit(flags, bit + k) {
        ShiftBit(before, k);
        assert Bit(before, k + 1) <==> Bit(flags, bit - 1 + (k + 1));
      }
    }
    assert Bit(rest, 0) <==> Bit(flags, bit + 0);
  }

  /** No option is missing, or the first one that is. */
  method CheckRequired(storage: seq<bv8>, count: nat) returns (missing: Option<nat>)
    requires count <= 8 * |storage|
    ensures missing == None <==> forall i :: 0 <= i < count ==> Seen(storage, i)
    ensures missing.Some? ==> missing.value < count && !Seen(storage, missing.value)
                              && forall i :: 0 <= i < missing.value ==> Seen(storage, i)
  {
    var fullBytes: nat, remainingBits: nat, byte: nat := count / 8, count % 8, 0;
    while fullBytes != 0
      invariant byte + fullBytes == count / 8
      invariant forall i :: 0 <= i < 8 * byte ==> Seen(storage, i)
    {
      var flags := storage[byte];
      LowMaskIff(flags, 8);
      if flags != 0xff {
        var bit := FirstClear(flags);
        AllBelow(storage, byte, bit);
        return Some(8 * byte + bit);
      }
      AllBelow(storage, byte, 8);
      byte := byte + 1;
      fullBytes := fullBytes - 1;
    }
    if remainingBits != 0 {
      var flags := storage[byte];
      LowMaskIff(flags, remainingBits);
      if flags & LowMask(remainingBits) != LowMask(remainingBits) {
        var bit := FirstClear(flags);
        AllBelow(storage, byte, bit);
        return Some(8 * byte + bit);
      }
      AllBelow(storage, byte, remainingBits);
    }
    return None;
  }

  lemma AllBelow(storage: seq<bv8>, byte: nat, bits: nat)
    requires byte < |storage| && bits <= 8
    requires forall i :: 0 <= i < 8 * byte ==> Seen(storage, i)
    requires forall k :: 0 <= k < bits ==> Bit(storage[byte], k)
    ensures forall i :: 0 <= i < 8 * byte + bits ==> Seen(storage, i)
    ensures bits < 8 ==> (Seen(storage, 8 * byte + bits) <==> Bit(storage[byte], bits))
  {
    forall i | 0 <= i < 8 * byte + bits ensures Seen(storage, i) {
      if i >= 8 * byte {
        assert i / 8 == byte && i % 8 == i - 8 * byte;
        assert Bit(storage[byte], i - 8 * byte);
      }
    }
  }

  // ----- Parsing -----

  /** What an option's own parser makes of its parameter. */
  datatype OptionStatus = Accepted | Exit | ParameterMissing | ParameterUnexpected | ParameterInvalid | RequiredMissing

  /** Options are numbered, the required ones first; what their parsers do otherwise is left open. */
  type OptionParser = (nat, string) -> OptionStatus

  datatype Outcome = Done | ByOption(status: OptionStatus) | NotAnArgument | UnknownIdentifier | Missing(option: nat)

  datatype Digested = Digested(status: OptionStatus, rest: seq<string>)

  /** A missing parameter is looked for once more in the next argument, unless that is an option. */
  function Digest(list: ArgumentsList, parser: OptionParser, option: nat, tokens: Tokens,
                  rest: seq<string>): (r: Digested)
    ensures |r.rest| <= |rest|
  {
    var first := parser(option, tokens.parameter);
    if first != ParameterMissing || rest == [] then Digested(first, rest)
    else if PrefixOf(list, rest[0]) != NoPrefix then Digested(first, rest[1..])
    else Digested(parser(option, rest[0]), rest[1..])
  }

  /** The number of the option that an argument names, if any. */
  function OptionOf(list: ArgumentsList, argument: string): Option<nat> {
    var tokens := Tokenize(list, argument);
    var r, o := FirstMatch(list.required, tokens), FirstMatch(list.optional, tokens);
    if r < |list.required| then Some(r)
    else if o < |list.optional| then Some(|list.required| + o)
    else None
  }

  datatype Progress = Progress(outcome: Outcome, matched: set<nat>)

  function MatchedWith(list: ArgumentsList, matched: set<nat>, option: nat): set<nat> {
    if option < |list.required| then matched + {option} else matched
  }

  /** Arguments are parsed until one fails; required options are noted when they are named. */
  function ParseAll(list: ArgumentsList, parser: OptionParser, arguments: seq<string>, matched: set<nat>): Progress
    decreases |arguments|
  {
    if arguments == [] then Progress(Done, matched)
    else if PrefixOf(list, arguments[0]) == NoPrefix then Progress(NotAnArgument, matched)
    else
      match OptionOf(list, arguments[0])
      case None => Progress(UnknownIdentifier, matched)
      case Some(option) =>
        var d := Digest(list, parser, option, Tokenize(list, arguments[0]), arguments[1..]);
        var matched' := MatchedWith(list, matched, option);
        if d.status != Accepted then Progress(ByOption(d.status), matched')
        else ParseAll(list, parser, d.rest, matched')
  }

  // ----- A command line, told by what it is made of -----

  /** An argument that names an option: a prefix, a name, and perhaps a parameter behind the split token. */
  datatype Use = Use(long: bool, identifier: string, parameter: Option<string>) {
    function Render(list: ArgumentsList): string {
      Written(if long then list.prefixLong else list.prefixShort, identifier, list.splitToken, parameter)
    }

    /** What begins with the long prefix has a long name. */
    predicate Valid(list: ArgumentsList) {
      list.splitToken !in identifier && (long || !(list.prefixLong <= Render(list)))
    }

    predicate Names(option: OptionNames) {
      if long then identifier in option.long else |identifier| == 1 && identifier[0] in option.short
    }

    /** The option is the first by this name, the required ones being first. */
    ghost predicate Selects(list: ArgumentsList, option: nat) {
      var options := list.required + list.optional;
      option < |options| && Names(options[option]) && forall j :: 0 <= j < option ==> !Names(options[j])
    }

    function Text(): string {
      if parameter.Some? then parameter.value else ""
    }
  }

  predicate HasPrefix(list: ArgumentsList, argument: string) {
    list.prefixLong <= argument || list.prefixShort <= argument
  }

  /** What an option makes of its text, and of the next argument if it misses its parameter and that is no option. */
  ghost predicate Decides(list: ArgumentsList, parser: OptionParser, option: nat, text: string, next: seq<string>,
                          status: OptionStatus, rest: seq<string>) {
    if parser(option, text) != ParameterMissing || next == [] || HasPrefix(list, next[0]) then
      status == parser(option, text) && (status != ParameterMissing ==> rest == next)
    else status == parser(option, next[0]) && rest == next[1..]
  }

  /** The arguments begin with a use of the option that its parser accepts. */
  ghost predicate BeginsWith(list: ArgumentsList, parser: OptionParser, arguments: seq<string>, option: nat,
                             rest: seq<string>) {
    arguments != [] && exists use: Use ::
      && use.Valid(list) && arguments[0] == use.Render(list) && use.Selects(list, option)
      && Decides(list, parser, option, use.Text(), arguments[1..], Accepted, rest)
  }

  /** A use of no option, or of one that does not accept it. */
  ghost predicate UseFails(list: ArgumentsList, parser: OptionParser, use: Use, next: seq<string>, outcome: Outcome) {
    || (outcome == UnknownIdentifier && forall option: nat :: !use.Selects(list, option))
    || exists option: nat, rest: seq<string> ::
         && outcome.ByOption? && outcome.status != Accepted && use.Selects(list, option)
         && Decides(list, parser, option, use.Text(), next, outcome.status, rest)
  }

  /** The arguments begin with something that is not accepted. */
  ghost predicate Fails(list: ArgumentsList, parser: OptionParser, arguments: seq<string>, outcome: Outcome) {
    arguments != []
    && if !HasPrefix(list, arguments[0]) then outcome == NotAnArgument
       else exists use: Use ::
         && use.Valid(list) && arguments[0] == use.Render(list)
         && UseFails(list, parser, use, arguments[1..], outcome)
  }

  /** All arguments are uses of these options, in this order, up to the end or to what fails. */
  ghost predicate Reads(list: ArgumentsList, parser: OptionParser, arguments: seq<string>, options: seq<nat>,
                        outcome: Outcome)
    decreases |options|
  {
    if options == [] then if arguments == [] then outcome == Done else Fails(list, parser, arguments, outcome)
    else exists rest: seq<string> ::
           BeginsWith(list, parser, arguments, options[0], rest) && Reads(list, parser, rest, options[1..], outcome)
  }

  /** An argument with a prefix is a use of the option that it names. */
  lemma ArgumentIsUse(list: ArgumentsList, argument: string) returns (use: Use)
    requires HasPrefix(list, argument)
    ensures use.Valid(list) && argument == use.Render(list)
  {
    var long := list.prefixLong <= argument;
    var prefix := if long then list.prefixLong else list.prefixShort;
    var identifier, parameter := Splits(argument[|prefix|..], list.splitToken);
    use := Use(long, identifier, parameter);
    assert argument == prefix + argument[|prefix|..];
    assert use.Render(list) == argument;
  }

  lemma Splits(s: string, token: char) returns (identifier: string, parameter: Option<string>)
    ensures token !in identifier
    ensures s == identifier + if parameter.Some? then [token] + parameter.value else ""
  {
    var p := FirstToken(s, token);
    hide FirstToken;
    identifier, parameter := s[..p], if p == |s| then None else Some(s[p + 1..]);
  }

  /** Whatever the parameter of an option, it is found, and so is the option. */
  lemma UseIsRead(list: ArgumentsList, use: Use)
    requires use.Valid(list)
    ensures var argument := use.Render(list);
            && PrefixOf(list, argument) != NoPrefix && HasPrefix(list, argument)
            && Tokenize(list, argument).parameter == use.Text()
            && (forall option: nat :: OptionOf(list, argument) == Some(option) <==> use.Selects(list, option))
            && (OptionOf(list, argument) == None <==> forall option: nat :: !use.Selects(list, option))
  {
    UseIsTokenized(list, use);
    UseSelects(list, use, use.Render(list));
    UseIsFound(list, use, use.Render(list));
  }

  lemma UseIsTokenized(list: ArgumentsList, use: Use)
    requires use.Valid(list)
    ensures var argument, prefix := use.Render(list), if use.long then LongPrefix else ShortPrefix;
            && PrefixOf(list, argument) == prefix && HasPrefix(list, argument)
            && Tokenize(list, argument) == Tokens(prefix, use.identifier, use.Text())
  {
    WrittenIsTokenized(list, if use.long then list.prefixLong else list.prefixShort, use.identifier, use.parameter);
    assert (if use.long then list.prefixLong else list.prefixShort) <= use.Render(list);
    hide Written;
    hide FirstToken;
  }

  lemma UseIsFound(list: ArgumentsList, use: Use, argument: string)
    requires OptionOf(list, argument) == None ==> forall option: nat :: !use.Selects(list, option)
    requires OptionOf(list, argument) != None ==> use.Selects(list, OptionOf(list, argument).value)
    ensures forall option: nat :: OptionOf(list, argument) == Some(option) <==> use.Selects(list, option)
    ensures OptionOf(list, argument) == None <==> forall option: nat :: !use.Selects(list, option)
  {
    hide OptionOf;
    hide Use.Selects;
    if OptionOf(list, argument) != None {
      var option := OptionOf(list, argument).value;
      forall other: nat | use.Selects(list, other) ensures other == option {
        OneIsSelected(list, use, option, other);
      }
    }
  }

  lemma OneIsSelected(list: ArgumentsList, use: Use, a: nat, b: nat)
    requires use.Selects(list, a) && use.Selects(list, b)
    ensures a == b
  {
  }

  lemma UseSelects(list: ArgumentsList, use: Use, argument: string)
    requires Tokenize(list, argument).prefixType == if use.long then LongPrefix else ShortPrefix
    requires Tokenize(list, argument).identifier == use.identifier
    ensures OptionOf(list, argument) == None ==> forall option: nat :: !use.Selects(list, option)
    ensures OptionOf(list, argument) != None ==> use.Selects(list, OptionOf(list, argument).value)
  {
    hide Tokenize;
  }

  lemma DigestDecides(list: ArgumentsList, parser: OptionParser, option: nat, tokens: Tokens, next: seq<string>,
                      status: OptionStatus, rest: seq<string>)
    ensures Decides(list, parser, option, tokens.parameter, next, status, rest) ==>
              Digest(list, parser, option, tokens, next).status == status
              && (status == Accepted ==> Digest(list, parser, option, tokens, next).rest == rest)
    ensures var d := Digest(list, parser, option, tokens, next);
            Decides(list, parser, option, tokens.parameter, next, d.status, d.rest)
  {
  }

  /** Behind the uses of `options`, these count as matched too. */
  ghost predicate Counts(n: nat, before: set<nat>, options: seq<nat>, after: set<nat>) {
    forall i :: 0 <= i < n ==> (i in after <==> i in before || i in options)
  }

  lemma CountsFirst(list: ArgumentsList, before: set<nat>, options: seq<nat>, after: set<nat>)
    requires options != []
    requires Counts(|list.required|, MatchedWith(list, before, options[0]), options[1..], after)
    ensures Counts(|list.required|, before, options, after)
  {
    assert options == [options[0]] + options[1..];
  }

  lemma ReadsFirst(list: ArgumentsList, parser: OptionParser, arguments: seq<string>, options: seq<nat>,
                   outcome: Outcome) returns (rest: seq<string>)
    requires Reads(list, parser, arguments, options, outcome) && options != []
    ensures BeginsWith(list, parser, arguments, options[0], rest) && Reads(list, parser, rest, options[1..], outcome)
  {
    hide BeginsWith;
    hide Fails;
    rest :| BeginsWith(list, parser, arguments, options[0], rest) && Reads(list, parser, rest, options[1..], outcome);
  }

  /** What is read is what the arguments are made of, and the options that count as matched are those used. */
  lemma {:induction false} ReadsIsParsed(list: ArgumentsList, parser: OptionParser, arguments: seq<string>,
                                         options: seq<nat>, outcome: Outcome, matched: set<nat>)
    requires Reads(list, parser, arguments, options, outcome)
    ensures var p := ParseAll(list, parser, arguments, matched);
            p.outcome == outcome && (outcome == Done ==> Counts(|list.required|, matched, options, p.matched))
    decreases |options|
  {
    hide BeginsWith;
    hide Fails;
    hide Counts;
    hide MatchedWith;
    if options != [] {
      var rest := ReadsFirst(list, parser, arguments, options, outcome);
      hide ParseAll;
      hide Reads;
      var matched' := MatchedWith(list, matched, options[0]);
      BeginningIsParsed(list, parser, arguments, options[0], rest, matched);
      ReadsIsParsed(list, parser, rest, options[1..], outcome, matched');
      if outcome == Done {
        CountsFirst(list, matched, options, ParseAll(list, parser, rest, matched').matched);
      }
    } else if arguments == [] {
      NothingCounts(|list.required|, matched);
    } else {
      FailureIsParsed(list, parser, arguments, outcome, matched);
    }
  }

  lemma NothingCounts(n: nat, matched: set<nat>)
    ensures Counts(n, matched, [], matched)
  {
  }

  lemma BeginningIsParsed(list: ArgumentsList, parser: OptionParser, arguments: seq<string>, option: nat,
                          rest: seq<string>, matched: set<nat>)
    requires BeginsWith(list, parser, arguments, option, rest)
    ensures ParseAll(list, parser, arguments, matched)
         == ParseAll(list, parser, rest, MatchedWith(list, matched, option))
  {
    hide Tokenize;
    hide OptionOf;
    hide PrefixOf;
    hide Digest;
    hide Decides;
    hide Use.Render;
    hide Use.Valid;
    hide Use.Selects;
    var use: Use :|
      && use.Valid(list) && arguments[0] == use.Render(list) && use.Selects(list, option)
      && Decides(list, parser, option, use.Text(), arguments[1..], Accepted, rest);
    UseIsRead(list, use);
    DigestDecides(list, parser, option, Tokenize(list, arguments[0]), arguments[1..], Accepted, rest);
  }

  lemma FailureIsParsed(list: ArgumentsList, parser: OptionParser, arguments: seq<string>, outcome: Outcome,
                        matched: set<nat>)
    requires Fails(list, parser, arguments, outcome)
    ensures ParseAll(list, parser, arguments, matched).outcome == outcome && outcome != Done
  {
    PrefixIsNoticed(list, arguments[0]);
    hide Tokenize;
    hide OptionOf;
    hide PrefixOf;
    hide HasPrefix;
    hide Digest;
    hide Decides;
    hide Use.Render;
    hide Use.Valid;
    hide Use.Selects;
    if HasPrefix(list, arguments[0]) {
      var use: Use :|
        use.Valid(list) && arguments[0] == use.Render(list) && UseFails(list, parser, use, arguments[1..], outcome);
      UseIsRead(list, use);
      if outcome != UnknownIdentifier {
        var option: nat, rest: seq<string> :|
          && outcome.ByOption? && outcome.status != Accepted && use.Selects(list, option)
          && Decides(list, parser, option, use.Text(), arguments[1..], outcome.status, rest);
        DigestDecides(list, parser, option, Tokenize(list, arguments[0]), arguments[1..], outcome.status, rest);
      }
    }
  }

  lemma PrefixIsNoticed(list: ArgumentsList, argument: string)
    ensures PrefixOf(list, argument) == NoPrefix <==> !HasPrefix(list, argument)
  {
  }

  /** All arguments can be told so. */
  lemma {:induction false} ParsedReads(list: ArgumentsList, parser: OptionParser, arguments: seq<string>,
                                       matched: set<nat>) returns (options: seq<nat>)
    ensures Reads(list, parser, arguments, options, ParseAll(list, parser, arguments, matched).outcome)
    decreases |arguments|
  {
    options := [];
    if arguments != [] {
      PrefixIsNoticed(list, arguments[0]);
      hide Tokenize;
      hide OptionOf;
      hide PrefixOf;
      hide HasPrefix;
      hide Digest;
      hide Decides;
      hide Use.Render;
      hide Use.Valid;
      hide Use.Selects;
      if HasPrefix(list, arguments[0]) {
        var use := ArgumentIsUse(list, arguments[0]);
        UseIsRead(list, use);
        if OptionOf(list, arguments[0]) != None {
          var option, tokens := OptionOf(list, arguments[0]).value, Tokenize(list, arguments[0]);
          var d := Digest(list, parser, option, tokens, arguments[1..]);
          DigestDecides(list, parser, option, tokens, arguments[1..], d.status, d.rest);
          if d.status == Accepted {
            options := ParsedReads(list, parser, d.rest, MatchedWith(list, matched, option));
            assert BeginsWith(list, parser, arguments, option, d.rest);
            ReadsInFront(list, parser, arguments, option, d.rest, options,
                         ParseAll(list, parser, arguments, matched).outcome);
            options := [option] + options;
          }
        }
      }
    }
  }

  lemma ReadsInFront(list: ArgumentsList, parser: OptionParser, arguments: seq<string>, option: nat,
                     rest: seq<string>, options: seq<nat>, outcome: Outcome)
    requires BeginsWith(list, parser, arguments, option, rest) && Reads(list, parser, rest, options, outcome)
    ensures Reads(list, parser, arguments, [option] + options, outcome)
  {
    hide BeginsWith;
    var all := [option] + options;
    assert all[1..] == options && all[0] == option;
  }

  ghost predicate AllUsed(options: seq<nat>, n: nat) {
    forall i :: 0 <= i < n ==> i in options
  }

  ghost predicate FirstUnused(list: ArgumentsList, options: seq<nat>, option: nat) {
    option < |list.required| && option !in options && AllUsed(options, option)
  }

  /** The outcome of a parse, told by what the arguments are made of, and by the first required option not used. */
  ghost predicate Amounts(list: ArgumentsList, parser: OptionParser, arguments: seq<string>, outcome: Outcome) {
    if outcome == Done then
      exists options: seq<nat> ::
        Reads(list, parser, arguments, options, Done) && AllUsed(options, |list.required|)
    else if outcome.Missing? then
      exists options: seq<nat> ::
        Reads(list, parser, arguments, options, Done) && FirstUnused(list, options, outcome.option)
    else exists options: seq<nat> :: Reads(list, parser, arguments, options, outcome)
  }

  /** What a whole parse comes to, told by the arguments one by one. */
  ghost predicate ParseMeans(list: ArgumentsList, parser: OptionParser, arguments: seq<string>, outcome: Outcome) {
    var p := ParseAll(list, parser, arguments, {});
    if outcome == Done then p.outcome == Done && forall i :: 0 <= i < |list.required| ==> i in p.matched
    else if outcome.Missing? then
      p.outcome == Done && outcome.option < |list.required| && outcome.option !in p.matched
      && forall i :: 0 <= i < outcome.option ==> i in p.matched
    else p.outcome == outcome
  }

  /** The parse has the outcome that its arguments amount to, and they amount to one only. */
  lemma ParseAmountsTo(list: ArgumentsList, parser: OptionParser, arguments: seq<string>, outcome: Outcome)
    ensures ParseMeans(list, parser, arguments, outcome) <==> Amounts(list, parser, arguments, outcome)
  {
    hide ParseAll;
    hide Reads;
    var p := ParseAll(list, parser, arguments, {});
    if ParseMeans(list, parser, arguments, outcome) {
      var options := ParsedReads(list, parser, arguments, {});
      ReadsIsParsed(list, parser, arguments, options, p.outcome, {});
      assert outcome == Done ==> AllUsed(options, |list.required|);
      assert outcome.Missing? ==> FirstUnused(list, options, outcome.option);
    }
    if Amounts(list, parser, arguments, outcome) {
      var read := if outcome.Missing? then Done else outcome;
      var options: seq<nat> :|
        && Reads(list, parser, arguments, options, read)
        && (outcome == Done ==> AllUsed(options, |list.required|))
        && (outcome.Missing? ==> FirstUnused(list, options, outcome.option));
      ReadsIsParsed(list, parser, arguments, options, read, {});
    }
  }

  lemma OneOutcome(list: ArgumentsList, parser: OptionParser, arguments: seq<string>, a: Outcome, b: Outcome)
    requires Amounts(list, parser, arguments, a) && Amounts(list, parser, arguments, b)
    ensures a == b
  {
    ParseAllChecksNothing(list, parser, arguments, {});
    ParseAmountsTo(list, parser, arguments, a);
    ParseAmountsTo(list, parser, arguments, b);
    hide ParseAll;
    hide Amounts;
  }

  method FindOption(options: seq<OptionNames>, tokens: Tokens) returns (i: nat)
    requires options != []
    ensures i == FirstMatch(options, tokens)
  {
    hide IsMatch;
    i := 0;
    assert options[0..] == options;
    while i != |options|
      invariant i <= |options| && FirstMatch(options, tokens) == i + FirstMatch(options[i..], tokens)
    {
      if IsMatch(options[i], tokens) {
        return;
      }
      assert options[i..][1..] == options[i + 1..];
      i := i + 1;
    }
  }

  /** Runs the option's parser, and once more with the next argument if it misses its parameter. */
  method DigestArgument(list: ArgumentsList, parser: OptionParser, option: nat, tokens: Tokens, file: ConfigFile)
    returns (status: OptionStatus)
    modifies file
    ensures Digested(status, file.Remaining()) == Digest(list, parser, option, tokens, old(file.Remaining()))
    ensures |file.slice| <= old(|file.slice|)
  {
    status := parser(option, tokens.parameter);
    if status != ParameterMissing {
      return;
    }
    var next := file.Next();
    if next == None {
      return;
    }
    if PrefixOf(list, next.value) != NoPrefix {
      return;
    }
    status := parser(option, next.value);
  }

  /** One argument: the option it names is noted if required, then its parser decides. */
  method ParseArgument(list: ArgumentsList, parser: OptionParser, argument: string, file: ConfigFile,
                       storage: array<bv8>, ghost matched: set<nat>)
    returns (outcome: Outcome, ghost matched': set<nat>)
    requires list.required != [] && list.optional != []
    requires PrefixOf(list, argument) != NoPrefix && Records(storage[..], |list.required|, matched)
    modifies file, storage
    ensures |file.slice| <= old(|file.slice|)
    ensures match OptionOf(list, argument)
            case None => outcome == UnknownIdentifier
            case Some(option) =>
              var d := Digest(list, parser, option, Tokenize(list, argument), old(file.Remaining()));
              && matched' == MatchedWith(list, matched, option) && Records(storage[..], |list.required|, matched')
              && file.Remaining() == d.rest
              && outcome == if d.status == Accepted then Done else ByOption(d.status)
  {
    hide FirstMatch;
    hide Tokenize;
    hide Digest;
    hide Records;
    var tokens := Tokenize(list, argument);
    matched' := matched;
    var i := FindOption(list.required, tokens);
    if i < |list.required| {
      SetRequired(storage, i, |list.required|, matched);
      matched' := matched + {i};
      var status := DigestArgument(list, parser, i, tokens, file);
      outcome := if status == Accepted then Done else ByOption(status);
      return;
    }
    i := FindOption(list.optional, tokens);
    if i < |list.optional| {
      var status := DigestArgument(list, parser, |list.required| + i, tokens, file);
      outcome := if status == Accepted then Done else ByOption(status);
      return;
    }
    outcome := UnknownIdentifier;
  }

  /** The loop over all arguments; it keeps what the arguments still to come will do in view. */
  method ParseArguments(list: ArgumentsList, parser: OptionParser, file: ConfigFile, storage: array<bv8>)
    returns (outcome: Outcome)
    requires list.required != [] && list.optional != [] && Records(storage[..], |list.required|, {})
    modifies file, storage
    ensures var p := ParseAll(list, parser, old(file.Remaining()), {});
            outcome == p.outcome && (outcome == Done ==> Records(storage[..], |list.required|, p.matched))
  {
    hide OptionOf;
    hide Digest;
    hide Records;
    ghost var whole := ParseAll(list, parser, file.Remaining(), {});
    ghost var matched: set<nat> := {};
    while true
      invariant Records(storage[..], |list.required|, matched)
      invariant ParseAll(list, parser, file.Remaining(), matched) == whole
      decreases |file.Remaining()|
    {
      var argument := file.Next();
      if argument == None {
        return Done;
      }
      if PrefixOf(list, argument.value) == NoPrefix {
        return NotAnArgument;
      }
      outcome, matched := ParseArgument(list, parser, argument.value, file, storage, matched);
      if outcome != Done {
        return;
      }
    }
  }

  /** Whether an option is missing is only known at the end. */
  lemma {:induction false} ParseAllChecksNothing(list: ArgumentsList, parser: OptionParser, arguments: seq<string>,
                                                 matched: set<nat>)
    ensures !ParseAll(list, parser, arguments, matched).outcome.Missing?
    decreases |arguments|
  {
    hide OptionOf;
    hide Digest;
    if arguments != [] && PrefixOf(list, arguments[0]) != NoPrefix && OptionOf(list, arguments[0]) != None {
      var option := OptionOf(list, arguments[0]).value;
      var d := Digest(list, parser, option, Tokenize(list, arguments[0]), arguments[1..]);
      ParseAllChecksNothing(list, parser, d.rest, MatchedWith(list, matched, option));
    }
  }

  /** Parses all arguments, then checks that no required option is missing. */
  method Parse(list: ArgumentsList, parser: OptionParser, file: ConfigFile,
               storage: array<bv8>) returns (outcome: Outcome)
    requires list.required != [] && list.optional != [] && InitializedBytes(|list.required|) <= storage.Length
    modifies file, storage
    ensures Amounts(list, parser, old(file.Remaining()), outcome)
    ensures forall other :: Amounts(list, parser, old(file.Remaining()), other) ==> other == outcome
  {
    hide ParseAll;
    hide Amounts;
    var bytes := InitializedBytes(|list.required|);
    forall k | 0 <= k < bytes {
      storage[k] := 0;
    }
    ghost var arguments := file.Remaining();
    NothingRecorded(storage[..], |list.required|);
    outcome := ParseArguments(list, parser, file, storage);
    if outcome == Done {
      var missing := CheckRequired(storage[..], |list.required|);
      if missing.Some? {
        outcome := Missing(missing.value);
      }
    } else {
      ParseAllChecksNothing(list, parser, arguments, {});
    }
    ParseAmountsTo(list, parser, arguments, outcome);
    forall other | Amounts(list, parser, arguments, other) ensures other == outcome {
      OneOutcome(list, parser, arguments, other, outcome);
    }
  }

  lemma NothingRecorded(storage: seq<bv8>, count: nat)
    requires InitializedBytes(count) <= |storage| && forall k :: 0 <= k < InitializedBytes(count) ==> storage[k] == 0
    ensures Records(storage, count, {})
  {
  }
}
