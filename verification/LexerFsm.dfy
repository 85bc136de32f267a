/**
 The lexer as the object that the state functions update
 (rescompiler/textcompiler/src/tux64-textcompiler/lexer.c).
 */
module LexerFsm {
  import opened Arithmetic
  import opened Common
  import Grammar
  import opened Lexer
  import opened Strings
  import TextFile

  class Fsm {
    const raw: string
    var state: State
    var position: nat
    var entries: seq<Entry>
    var capacity: nat

    function Snapshot(): Lex
      reads this
    {
      Lex(state, position, entries, capacity)
    }

    predicate Valid()
      reads this
    {
      Snapshot().Valid() && position <= |raw|
    }

    constructor (raw: string)
      ensures Valid() && this.raw == raw && Snapshot() == START
    {
      this.raw := raw;
      state, position, entries, capacity := Initial, 0, [], 1;
    }

    /** Takes the next character, leaving newlines out. */
    method Next() returns (c: Option<char>)
      requires Valid()
      modifies this`position
      ensures Valid()
      ensures var p := Lexer.Next(raw, old(position));
              if p == |raw| then position == p && c == None else position == p + 1 && c == Some(raw[p])
    {
      while position != |raw|
        invariant old(position) <= position <= |raw| && Lexer.Next(raw, position) == Lexer.Next(raw, old(position))
      {
        var character := raw[position];
        position := position + 1;
        if character != '\n' {
          return Some(character);
        }
      }
      return None;
    }

    method Exit(status: Status)
      modifies this`state
      ensures state == Exited(status)
    {
      state := Exited(status);
    }

    method SetTop(f: Field, s: Slice)
      requires entries != []
      modifies this`entries
      ensures entries == old(entries)[|old(entries)| - 1 := old(entries)[|old(entries)| - 1].With(f, s)]
    {
      entries := entries[|entries| - 1 := entries[|entries| - 1].With(f, s)];
    }

    method SetNewStringEntry()
      requires Valid() && state == Initial
      modifies this`state, this`entries, this`capacity
      ensures Snapshot() == PushEntry(old(Snapshot()))
    {
      if |entries| != (capacity - 1) % U32 {
        capacity := capacity * 2 % U32;
        if capacity == 0 {
          return;
        }
      }
      entries := entries + [EMPTY_ENTRY];
      state := EntryInitial;
    }

    method SetFinalizeStringEntry()
      requires Valid() && entries != []
      modifies this`state
      ensures Snapshot() == FinishEntry(old(Snapshot()))
    {
      var missing := false;
      var top := entries[|entries| - 1];
      missing := missing || top.data.characters == 0;
      missing := missing || top.length.characters == 0;
      missing := missing || top.text.characters == 0;
      if missing {
        Exit(MissingRequiredField);
      } else {
        state := Initial;
      }
    }

    method SetPostIdentifier(hash: bv32, separated: bool)
      modifies this`state
      ensures Snapshot() == PostIdentifier(old(Snapshot()), hash, separated)
    {
      var f := Text;
      if hash == HASH_IDENTIFIER_DATA {
        f := Data;
      } else if hash == HASH_IDENTIFIER_LENGTH {
        f := Length;
      } else if hash != HASH_TEXT {
        Exit(UnknownField);
        return;
      }
      state := if separated then WaitValue(f) else WaitSeparator(f);
    }

    method SetExitValueIdentifier(f: Field, next: State)
      requires entries != []
      modifies this`state
      ensures Snapshot() == ExitValueIdentifier(old(Snapshot()), f, next)
    {
      if entries[|entries| - 1].Get(f).characters == 0 {
        Exit(FieldMissingValue);
        return;
      }
      state := next;
    }

    method DigestValueIdentifier(f: Field, c: char)
      requires entries != []
      modifies this`state, this`entries
      ensures Snapshot() == InValueIdentifier(old(Snapshot()), f, c)
    {
      if IsWhitespace(c) {
        SetExitValueIdentifier(f, WaitNewline);
      } else if c == '{' || c == '}' || c == '/' || c == '*' || c == '\"' {
        Exit(MalformedField);
      } else if c == ';' {
        SetExitValueIdentifier(f, EntryInitial);
      } else {
        var s := entries[|entries| - 1].Get(f);
        SetTop(f, s.(characters := s.characters + 1));
      }
    }

    method SetValueIdentifier(f: Field, c: char)
      requires entries != [] && position > 0
      modifies this`state, this`entries
      ensures Snapshot() == StartIdentifier(old(Snapshot()), f, c)
    {
      SetTop(f, entries[|entries| - 1].Get(f).(start := position - 1));
      if c == '\"' {
        return;
      }
      state := ValueIdentifier(f);
      DigestValueIdentifier(f, c);
    }

    method SetValueText(c: char)
      requires entries != []
      modifies this`state, this`entries
      ensures Snapshot() == StartText(old(Snapshot()), c)
    {
      if c == '{' || c == '}' || c == '/' || c == '*' || c == '=' || c == '.' {
        Exit(MalformedField);
      } else if c == ';' {
        Exit(FieldMissingValue);
      } else if c == '\"' {
        SetTop(Text, entries[|entries| - 1].text.(start := position));
        state := ValueText;
      } else {
        Exit(FieldIncorrectTypeText);
      }
    }

    method StateInitial()
      requires Valid() && state == Initial
      modifies this
      ensures Snapshot() == Step(raw, old(Snapshot()))
    {
      var next := Next();
      if next == None {
        Exit(if entries == [] then EmptyFile else Ok);
        return;
      }
      var c := next.value;
      if IsWhitespace(c) {
        return;
      }
      match c
      case '{' => SetNewStringEntry();
      case '/' => state := CommentStart(false);
      case '*' => Exit(CommentEndUnmatched);
      case _ => Exit(EntryMalformed);
    }

    method StateCommentStart()
      requires Valid() && state.CommentStart?
      modifies this
      ensures Snapshot() == Step(raw, old(Snapshot()))
    {
      var next := Next();
      if next == None {
        Exit(CommentStartInvalid);
        return;
      }
      if next.value != '*' {
        Exit(CommentStartInvalid);
        return;
      }
      state := Comment(state.inEntry);
    }

    method StateComment()
      requires Valid() && state.Comment?
      modifies this
      ensures Snapshot() == Step(raw, old(Snapshot()))
    {
      var next := Next();
      if next == None {
        Exit(CommentUnterminated);
        return;
      }
      if next.value == '*' {
        state := CommentEnd(state.inEntry);
      }
    }

    method StateCommentEnd()
      requires Valid() && state.CommentEnd?
      modifies this
      ensures Snapshot() == Step(raw, old(Snapshot()))
    {
      var next := Next();
      if next == None {
        Exit(CommentUnterminated);
        return;
      }
      match next.value
      case '/' => state := if state.inEntry then EntryInitial else Initial;
      case '*' =>
      case _ => state := Comment(state.inEntry);
    }

    method StateEntryInitial()
      requires Valid() && state == EntryInitial
      modifies this
      ensures Snapshot() == Step(raw, old(Snapshot()))
    {
      var next := Next();
      if next == None {
        Exit(EntryUnterminated);
        return;
      }
      var c := next.value;
      if IsWhitespace(c) {
        return;
      }
      match c
      case '/' => state := CommentStart(true);
      case '*' => Exit(CommentEndUnmatched);
      case '.' => state := EntryIdentifier(0);
      case '=' => Exit(FieldMissingIdentifier);
      case ';' => Exit(FieldMissingIdentifier);
      case '}' => SetFinalizeStringEntry();
      case _ => Exit(MalformedField);
    }

    method StateEntryIdentifier()
      requires Valid() && state.EntryIdentifier?
      modifies this
      ensures Snapshot() == Step(raw, old(Snapshot()))
    {
      var next := Next();
      if next == None {
        Exit(FieldMissingSeparator);
        return;
      }
      var c := next.value;
      if IsWhitespace(c) {
        SetPostIdentifier(state.hash, false);
      } else if c == '{' || c == '}' || c == '/' || c == '*' || c == '.' || c == '\"' {
        Exit(MalformedField);
      } else if c == ';' {
        Exit(FieldMissingSeparator);
      } else if c == '=' {
        SetPostIdentifier(state.hash, true);
      } else {
        state := EntryIdentifier(DigestHash(state.hash, c));
      }
    }

    method StateWaitSeparator()
      requires Valid() && state.WaitSeparator?
      modifies this
      ensures Snapshot() == Step(raw, old(Snapshot()))
    {
      var next := Next();
      if next == None {
        Exit(FieldMissingSeparator);
        return;
      }
      var c := next.value;
      if IsWhitespace(c) {
        return;
      }
      match c
      case '=' => state := WaitValue(state.field);
      case _ => Exit(FieldMissingSeparator);
    }

    method StateWaitValue()
      requires Valid() && state.WaitValue?
      modifies this
      ensures Snapshot() == Step(raw, old(Snapshot()))
    {
      var next := Next();
      if next == None {
        Exit(FieldMissingValue);
        return;
      }
      var c := next.value;
      if IsWhitespace(c) {
        return;
      }
      if c == '{' || c == '}' || c == '/' || c == '*' || c == '.' {
        Exit(MalformedField);
      } else if c == ';' {
        Exit(FieldMissingValue);
      } else if state.field == Text {
        SetValueText(c);
      } else {
        SetValueIdentifier(state.field, c);
      }
    }

    method StateValueIdentifier()
      requires Valid() && state.ValueIdentifier?
      modifies this
      ensures Snapshot() == Step(raw, old(Snapshot()))
    {
      var next := Next();
      if next == None {
        Exit(FieldMissingNewline);
        return;
      }
      DigestValueIdentifier(state.field, next.value);
    }

    method StateValueText()
      requires Valid() && state == ValueText
      modifies this
      ensures Snapshot() == Step(raw, old(Snapshot()))
    {
      var text := entries[|entries| - 1].text;
      var next := Next();
      if next == None {
        Exit(EntryUnterminated);
        return;
      }
      var c := next.value;
      if c == '\"' {
        if text.characters == 0 {
          Exit(ValueEmpty);
        } else {
          state := WaitNewline;
        }
      } else if !IsTextCharacter(c) {
        Exit(ValueBadCharacter);
      } else if text.characters == 255 {
        Exit(ValueTooLong);
      } else {
        SetTop(Text, text.(characters := text.characters + 1));
      }
    }

    method StateWaitNewline()
      requires Valid() && state == WaitNewline
      modifies this
      ensures Snapshot() == Step(raw, old(Snapshot()))
    {
      var next := Next();
      if next == None {
        Exit(FieldMissingNewline);
        return;
      }
      var c := next.value;
      if IsWhitespace(c) {
        return;
      }
      match c
      case ';' => state := EntryInitial;
      case _ => Exit(MalformedField);
    }

    method Execute()
      requires Valid() && !state.Exited?
      modifies this
      ensures Snapshot() == Step(raw, old(Snapshot())) && Valid()
    {
      match state
      case Initial => StateInitial();
      case CommentStart(_) => StateCommentStart();
      case Comment(_) => StateComment();
      case CommentEnd(_) => StateCommentEnd();
      case EntryInitial => StateEntryInitial();
      case EntryIdentifier(_) => StateEntryIdentifier();
      case WaitSeparator(_) => StateWaitSeparator();
      case WaitValue(_) => StateWaitValue();
      case ValueIdentifier(_) => StateValueIdentifier();
      case ValueText => StateValueText();
      case WaitNewline => StateWaitNewline();
    }

    /**
     Succeeds exactly for the files of the grammar, and fails with the status for the place where a file leaves it.
     Success means complete entries, and a printed file succeeds with its own contents exactly up to 33 entries.
     */
    method Parse() returns (status: Status)
      requires Valid() && Snapshot() == START
      modifies this
      ensures Snapshot() == Lexer.Parse(raw) && status == state.status
      ensures status == Ok <==> Grammar.File(TextFile.Stripped(raw), 0)
      ensures status != Ok ==> Grammar.FileFails(TextFile.Stripped(raw), 0, status)
      ensures |entries| <= TextFile.MAX_ENTRIES
      ensures status == Ok ==> Accepted(Snapshot())
      ensures status !in {OutOfMemory, FieldIncorrectTypeIdentifier, ValueUnterminated}
      ensures forall sources, layouts, trailing ::
                && TextFile.ValidFile(sources, layouts, trailing) && sources != []
                && raw == TextFile.PrintFile(sources, layouts, trailing)
                ==> (status == Ok && TextFile.ReadsAll(raw, entries, sources) <==> |sources| <= TextFile.MAX_ENTRIES)
    {
      while !state.Exited?
        invariant Valid() && Finish(raw, Snapshot()) == Lexer.Parse(raw)
        decreases |raw| - position, !state.Exited?
      {
        Execute();
      }
      status := state.status;
      ParseIsMeaningful(raw);
    }
  }

  /** What the specification of a parse is worth. */
  lemma ParseIsMeaningful(raw: string)
    ensures Lexer.Parse(raw).state == Exited(Ok) <==> Grammar.File(TextFile.Stripped(raw), 0)
    ensures Lexer.Parse(raw).state != Exited(Ok) ==>
              Grammar.FileFails(TextFile.Stripped(raw), 0, Lexer.Parse(raw).state.status)
    ensures |Lexer.Parse(raw).entries| <= TextFile.MAX_ENTRIES
    ensures Lexer.Parse(raw).state == Exited(Ok) ==> Accepted(Lexer.Parse(raw))
    ensures Lexer.Parse(raw).state.status !in {OutOfMemory, FieldIncorrectTypeIdentifier, ValueUnterminated}
    ensures forall sources, layouts, trailing ::
              && TextFile.ValidFile(sources, layouts, trailing) && sources != []
              && raw == TextFile.PrintFile(sources, layouts, trailing)
              ==> (Lexer.Parse(raw).state == Exited(Ok) && TextFile.ReadsAll(raw, Lexer.Parse(raw).entries, sources)
                   <==> |sources| <= TextFile.MAX_ENTRIES)
  {
    hide *;
    Grammar.ParseAcceptsIff(raw);
    if Lexer.Parse(raw).state != Exited(Ok) {
      Grammar.ParseRejectsIff(raw, Lexer.Parse(raw).state.status);
    }
    TextFile.NoFileHasMoreEntries(raw);
    ParsedFilesAreComplete(raw);
    ParseReportsNone(raw);
    forall sources, layouts, trailing |
      && TextFile.ValidFile(sources, layouts, trailing) && sources != []
      && raw == TextFile.PrintFile(sources, layouts, trailing)
      ensures Lexer.Parse(raw).state == Exited(Ok) && TextFile.ReadsAll(raw, Lexer.Parse(raw).entries, sources)
         <==> |sources| <= TextFile.MAX_ENTRIES
    {
      TextFile.RoundTripIff(sources, layouts, trailing);
    }
  }

  lemma ParseReportsNone(raw: string)
    ensures Lexer.Parse(raw).state.status !in {OutOfMemory, FieldIncorrectTypeIdentifier, ValueUnterminated}
  {
    SomeErrorsAreNeverReported(raw, START);
  }
}
