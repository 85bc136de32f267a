/**
 The lexer of string files (rescompiler/textcompiler/src/tux64-textcompiler/lexer.c):
 a state machine that is fed one character at a time, with newlines taken out.
 */
module Lexer {
  import opened Arithmetic
  import opened Strings

  datatype Status =
    | Ok | OutOfMemory | EmptyFile
    | CommentStartInvalid | CommentEndUnmatched | CommentUnterminated
    | EntryUnterminated | EntryMalformed
    | FieldMissingIdentifier | FieldMissingValue | FieldMissingSeparator | FieldMissingNewline
    | FieldIncorrectTypeIdentifier | FieldIncorrectTypeText
    | ValueEmpty | ValueTooLong | ValueUnterminated | ValueBadCharacter
    | UnknownField | MalformedField | MissingRequiredField

  /** A stretch of the raw file. Until a value is met, the start is not set. */
  datatype Slice = Slice(start: int, characters: nat)

  const UNSET := Slice(-1, 0)

  datatype Field = Data | Length | Text

  datatype Entry = Entry(data: Slice, length: Slice, text: Slice) {
    function Get(f: Field): Slice {
      match f case Data => data case Length => length case Text => text
    }

    function With(f: Field, s: Slice): Entry {
      match f case Data => this.(data := s) case Length => this.(length := s) case Text => this.(text := s)
    }

    predicate Complete() {
      data.characters != 0 && length.characters != 0 && text.characters != 0
    }
  }

  const EMPTY_ENTRY := Entry(UNSET, UNSET, UNSET)

  /** The states; a comment remembers whether it began inside an entry. */
  datatype State =
    | Initial
    | CommentStart(inEntry: bool)
    | Comment(inEntry: bool)
    | CommentEnd(inEntry: bool)
    | EntryInitial
    | EntryIdentifier(hash: bv32)
    | WaitSeparator(field: Field)
    | WaitValue(field: Field)
    | ValueIdentifier(field: Field)
    | ValueText
    | WaitNewline
    | Exited(status: Status)
  {
    predicate InEntry() {
      match this
      case Initial => false
      case CommentStart(inEntry) => inEntry
      case Comment(inEntry) => inEntry
      case CommentEnd(inEntry) => inEntry
      case Exited(_) => false
      case _ => true
    }
  }

  datatype Lex = Lex(state: State, position: nat, entries: seq<Entry>, capacity: nat) {
    predicate Valid() {
      && (state.InEntry() ==> entries != [])
      && (state.ValueIdentifier? ==> state.field != Text)
    }

    function Fail(status: Status): Lex {
      this.(state := Exited(status))
    }

    function Go(next: State): Lex {
      this.(state := next)
    }

    function Top(): Entry
      requires entries != []
    {
      entries[|entries| - 1]
    }

    function WithTop(e: Entry): Lex
      requires entries != []
    {
      this.(entries := entries[|entries| - 1 := e])
    }
  }

  const START := Lex(Initial, 0, [], 1)

  // ----- Characters -----

  predicate IsTextCharacter(c: char) {
    'A' <= c <= 'Z' || 'a' <= c <= 'z' || '0' <= c <= '9' || c == '%' || c == '.' || c == ' '
  }

  // ----- The hash of field names -----

  const HASH_IDENTIFIER_DATA: bv32 := 0x63190b3d
  const HASH_IDENTIFIER_LENGTH: bv32 := 0x113b1f75
  const HASH_TEXT: bv32 := 0x74657874

  /** The characters of a file are bytes. */
  function ByteOf(c: char): bv8 {
    if c as int < 0x100 then (c as int) as bv8 else 0
  }

  /** Rotate by a byte, then mix in the character. */
  function DigestHash(v: bv32, c: char): bv32 {
    ((v << 8) | (v >> 24)) ^ (ByteOf(c) as bv32)
  }

  function HashFrom(v: bv32, name: string): bv32
    decreases |name|
  {
    if name == "" then v else HashFrom(DigestHash(v, name[0]), name[1..])
  }

  // ----- What one character does in each state -----

  /** The string array doubles its capacity on nearly every push; it wraps to zero at the 34th. */
  function PushEntry(lex: Lex): Lex {
    if |lex.entries| == (lex.capacity - 1) % U32 then
      lex.(entries := lex.entries + [EMPTY_ENTRY], state := EntryInitial)
    else
      var capacity := lex.capacity * 2 % U32;
      if capacity == 0 then lex.(capacity := 0)
      else lex.(entries := lex.entries + [EMPTY_ENTRY], capacity := capacity, state := EntryInitial)
  }

  function FinishEntry(lex: Lex): Lex
    requires lex.entries != []
  {
    if lex.Top().Complete() then lex.Go(Initial) else lex.Fail(MissingRequiredField)
  }

  function InInitial(lex: Lex, c: char): Lex {
    if IsWhitespace(c) then lex
    else if c == '{' then PushEntry(lex)
    else if c == '/' then lex.Go(CommentStart(false))
    else if c == '*' then lex.Fail(CommentEndUnmatched)
    else lex.Fail(EntryMalformed)
  }

  function InEntryInitial(lex: Lex, c: char): Lex
    requires lex.entries != []
  {
    if IsWhitespace(c) then lex
    else if c == '/' then lex.Go(CommentStart(true))
    else if c == '*' then lex.Fail(CommentEndUnmatched)
    else if c == '.' then lex.Go(EntryIdentifier(0))
    else if c == '=' || c == ';' then lex.Fail(FieldMissingIdentifier)
    else if c == '}' then FinishEntry(lex)
    else lex.Fail(MalformedField)
  }

  function InCommentEnd(lex: Lex, inEntry: bool, c: char): Lex {
    if c == '/' then lex.Go(if inEntry then EntryInitial else Initial)
    else if c == '*' then lex
    else lex.Go(Comment(inEntry))
  }

  /** The name has ended: its hash says which field it is. */
  function PostIdentifier(lex: Lex, hash: bv32, separated: bool): Lex {
    if hash == HASH_IDENTIFIER_DATA then lex.Go(if separated then WaitValue(Data) else WaitSeparator(Data))
    else if hash == HASH_IDENTIFIER_LENGTH then lex.Go(if separated then WaitValue(Length) else WaitSeparator(Length))
    else if hash == HASH_TEXT then lex.Go(if separated then WaitValue(Text) else WaitSeparator(Text))
    else lex.Fail(UnknownField)
  }

  function InEntryIdentifier(lex: Lex, hash: bv32, c: char): Lex {
    if IsWhitespace(c) then PostIdentifier(lex, hash, false)
    else if c in {'{', '}', '/', '*', '.', '\"'} then lex.Fail(MalformedField)
    else if c == ';' then lex.Fail(FieldMissingSeparator)
    else if c == '=' then PostIdentifier(lex, hash, true)
    else lex.Go(EntryIdentifier(DigestHash(hash, c)))
  }

  function InWaitSeparator(lex: Lex, f: Field, c: char): Lex {
    if IsWhitespace(c) then lex
    else if c == '=' then lex.Go(WaitValue(f))
    else lex.Fail(FieldMissingSeparator)
  }

  function ExitValueIdentifier(lex: Lex, f: Field, next: State): Lex
    requires lex.entries != []
  {
    if lex.Top().Get(f).characters == 0 then lex.Fail(FieldMissingValue) else lex.Go(next)
  }

  function InValueIdentifier(lex: Lex, f: Field, c: char): Lex
    requires lex.entries != []
  {
    if IsWhitespace(c) then ExitValueIdentifier(lex, f, WaitNewline)
    else if c in {'{', '}', '/', '*', '\"'} then lex.Fail(MalformedField)
    else if c == ';' then ExitValueIdentifier(lex, f, EntryInitial)
    else
      var s := lex.Top().Get(f);
      lex.WithTop(lex.Top().With(f, s.(characters := s.characters + 1)))
  }

  /** The slice begins at the character just consumed. A quote is reported but changes nothing else. */
  function StartIdentifier(lex: Lex, f: Field, c: char): Lex
    requires lex.entries != []
  {
    var lex' := lex.WithTop(lex.Top().With(f, lex.Top().Get(f).(start := lex.position - 1)));
    if c == '\"' then lex' else InValueIdentifier(lex'.Go(ValueIdentifier(f)), f, c)
  }

  function StartText(lex: Lex, c: char): Lex
    requires lex.entries != []
  {
    if c in {'{', '}', '/', '*', '=', '.'} then lex.Fail(MalformedField)
    else if c == ';' then lex.Fail(FieldMissingValue)
    else if c == '\"' then lex.WithTop(lex.Top().With(Text, lex.Top().text.(start := lex.position))).Go(ValueText)
    else lex.Fail(FieldIncorrectTypeText)
  }

  function InWaitValue(lex: Lex, f: Field, c: char): Lex
    requires lex.entries != []
  {
    if IsWhitespace(c) then lex
    else if c in {'{', '}', '/', '*', '.'} then lex.Fail(MalformedField)
    else if c == ';' then lex.Fail(FieldMissingValue)
    else if f == Text then StartText(lex, c)
    else StartIdentifier(lex, f, c)
  }

  function InValueText(lex: Lex, c: char): Lex
    requires lex.entries != []
  {
    var s := lex.Top().text;
    if c == '\"' then (if s.characters == 0 then lex.Fail(ValueEmpty) else lex.Go(WaitNewline))
    else if !IsTextCharacter(c) then lex.Fail(ValueBadCharacter)
    else if s.characters == 255 then lex.Fail(ValueTooLong)
    else lex.WithTop(lex.Top().With(Text, s.(characters := s.characters + 1)))
  }

  function InWaitNewline(lex: Lex, c: char): Lex {
    if IsWhitespace(c) then lex else if c == ';' then lex.Go(EntryInitial) else lex.Fail(MalformedField)
  }

  /** One character, already counted in the position. */
  function Consume(lex: Lex, c: char): (r: Lex)
    requires lex.Valid()
    ensures r.Valid() && r.position == lex.position
  {
    match lex.state
    case Initial => InInitial(lex, c)
    case CommentStart(inEntry) => if c == '*' then lex.Go(Comment(inEntry)) else lex.Fail(CommentStartInvalid)
    case Comment(inEntry) => if c == '*' then lex.Go(CommentEnd(inEntry)) else lex
    case CommentEnd(inEntry) => InCommentEnd(lex, inEntry, c)
    case EntryInitial => InEntryInitial(lex, c)
    case EntryIdentifier(hash) => InEntryIdentifier(lex, hash, c)
    case WaitSeparator(f) => InWaitSeparator(lex, f, c)
    case WaitValue(f) => InWaitValue(lex, f, c)
    case ValueIdentifier(f) => InValueIdentifier(lex, f, c)
    case ValueText => InValueText(lex, c)
    case WaitNewline => InWaitNewline(lex, c)
    case Exited(_) => lex
  }

  function AtEnd(lex: Lex): Status {
    match lex.state
    case Initial => if lex.entries == [] then EmptyFile else Ok
    case CommentStart(_) => CommentStartInvalid
    case Comment(_) => CommentUnterminated
    case CommentEnd(_) => CommentUnterminated
    case EntryInitial => EntryUnterminated
    case EntryIdentifier(_) => FieldMissingSeparator
    case WaitSeparator(_) => FieldMissingSeparator
    case WaitValue(_) => FieldMissingValue
    case ValueIdentifier(_) => FieldMissingNewline
    case ValueText => EntryUnterminated
    case WaitNewline => FieldMissingNewline
    case Exited(status) => status
  }

  // ----- Running over a file -----

  /** The next character that is not a newline, or the end of the file. */
  function Next(raw: string, p: nat): (q: nat)
    requires p <= |raw|
    ensures p <= q <= |raw| && (q < |raw| ==> raw[q] != '\n')
    decreases |raw| - p
  {
    if p == |raw| || raw[p] != '\n' then p else Next(raw, p + 1)
  }

  /** One call of a state function. */
  function Step(raw: string, lex: Lex): (r: Lex)
    requires lex.Valid() && lex.position <= |raw|
    ensures r.Valid() && lex.position <= r.position <= |raw|
    ensures r.position == lex.position ==> r.state.Exited?
  {
    var p := Next(raw, lex.position);
    if p == |raw| then lex.(position := p, state := Exited(AtEnd(lex)))
    else Consume(lex.(position := p + 1), raw[p])
  }

  /** State functions run until one of them exits, which is certain because each consumes something. */
  function Finish(raw: string, lex: Lex): (r: Lex)
    requires lex.Valid() && lex.position <= |raw|
    ensures r.state.Exited?
    decreases |raw| - lex.position, !lex.state.Exited?
  {
    if lex.state.Exited? then lex else Finish(raw, Step(raw, lex))
  }

  function Parse(raw: string): (r: Lex)
    ensures r.state.Exited?
  {
    Finish(raw, START)
  }

  // ----- What a successful parse guarantees -----

  /** All entries but the one being read are complete; texts never exceed what a byte can count. */
  ghost predicate Sound(lex: Lex) {
    && (forall i :: 0 <= i < |lex.entries| ==> lex.entries[i].text.characters <= 255)
    && (forall i :: 0 <= i < |lex.entries| - (if lex.state.InEntry() then 1 else 0) ==> lex.entries[i].Complete())
  }

  lemma ConsumeKeepsSound(lex: Lex, c: char)
    requires lex.Valid() && Sound(lex)
    ensures !Consume(lex, c).state.Exited? ==> Sound(Consume(lex, c))
  {
    match lex.state
    case WaitValue(f) => WaitValueKeepsSound(lex, f, c);
    case ValueIdentifier(f) => ValueIdentifierKeepsSound(lex, f, c);
    case ValueText => ValueTextKeepsSound(lex, c);
    case _ => OtherStatesKeepSound(lex, c);
  }

  lemma WaitValueKeepsSound(lex: Lex, f: Field, c: char)
    requires lex.Valid() && Sound(lex) && lex.state == WaitValue(f)
    ensures !Consume(lex, c).state.Exited? ==> Sound(Consume(lex, c))
  {
  }

  lemma ValueIdentifierKeepsSound(lex: Lex, f: Field, c: char)
    requires lex.Valid() && Sound(lex) && lex.state == ValueIdentifier(f)
    ensures !Consume(lex, c).state.Exited? ==> Sound(Consume(lex, c))
  {
  }

  lemma ValueTextKeepsSound(lex: Lex, c: char)
    requires lex.Valid() && Sound(lex) && lex.state == ValueText
    ensures !Consume(lex, c).state.Exited? ==> Sound(Consume(lex, c))
  {
  }

  lemma OtherStatesKeepSound(lex: Lex, c: char)
    requires lex.Valid() && Sound(lex)
    requires !lex.state.WaitValue? && !lex.state.ValueIdentifier? && !lex.state.ValueText?
    ensures !Consume(lex, c).state.Exited? ==> Sound(Consume(lex, c))
  {
    hide IsWhitespace;
  }

  ghost predicate Accepted(lex: Lex) {
    && lex.entries != []
    && forall i :: 0 <= i < |lex.entries| ==> lex.entries[i].Complete() && lex.entries[i].text.characters <= 255
  }

  /** Only the initial state ends well, and there no entry is being read. */
  lemma StepKeepsSound(raw: string, lex: Lex)
    requires lex.Valid() && lex.position <= |raw| && Sound(lex) && !lex.state.Exited?
    ensures var r := Step(raw, lex);
            (!r.state.Exited? ==> Sound(r)) && (r.state == Exited(Ok) ==> Accepted(r))
  {
    hide Consume;
    var p := Next(raw, lex.position);
    if p < |raw| {
      var lex' := lex.(position := p + 1);
      ConsumeKeepsSound(lex', raw[p]);
      ConsumeIsNeverOk(lex', raw[p]);
    }
  }

  lemma ConsumeIsNeverOk(lex: Lex, c: char)
    requires lex.Valid() && !lex.state.Exited?
    ensures Consume(lex, c).state != Exited(Ok)
  {
  }

  lemma {:induction false} OkIsAccepted(raw: string, lex: Lex)
    requires lex.Valid() && lex.position <= |raw| && Sound(lex) && !lex.state.Exited?
    ensures Finish(raw, lex).state == Exited(Ok) ==> Accepted(Finish(raw, lex))
    decreases |raw| - lex.position
  {
    hide Step;
    hide Sound;
    hide Accepted;
    StepKeepsSound(raw, lex);
    if !Step(raw, lex).state.Exited? {
      OkIsAccepted(raw, Step(raw, lex));
    }
  }

  /** A parsed file has entries, and each has two identifiers and a text of 1 to 255 characters. */
  lemma ParsedFilesAreComplete(raw: string)
    ensures Parse(raw).state == Exited(Ok) ==> Accepted(Parse(raw))
  {
    OkIsAccepted(raw, START);
  }

  /** Some errors are returned without leaving the state, or never returned: no parse reports them. */
  lemma {:induction false} SomeErrorsAreNeverReported(raw: string, lex: Lex)
    requires lex.Valid() && lex.position <= |raw| && !lex.state.Exited?
    ensures Finish(raw, lex).state.status !in {OutOfMemory, FieldIncorrectTypeIdentifier, ValueUnterminated}
    decreases |raw| - lex.position
  {
    if !Step(raw, lex).state.Exited? {
      SomeErrorsAreNeverReported(raw, Step(raw, lex));
    }
  }
}
