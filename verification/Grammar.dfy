/**
 Which string files the lexer accepts (rescompiler/textcompiler/src/tux64-textcompiler/lexer.c),
 as a grammar on the file without its newlines, which the lexer takes out wherever they are.
 */
module Grammar {
  import Comments
  import opened Lexer
  import opened Strings
  import opened TextFile

  // ----- The grammar -----

  /** The first end of a comment in `s` is at `n`. */
  ghost predicate FirstEndAt(s: string, n: nat) {
    n + 2 <= |s| && Comments.EndsAt(s, n) && forall i :: 0 <= i < n ==> !Comments.EndsAt(s, i)
  }

  /** What is left of `s` behind the comment that it begins with. */
  ghost predicate BeginsWithComment(s: string, rest: string) {
    "/*" <= s && exists n :: FirstEndAt(s[2..], n) && rest == s[n + 4..]
  }

  /** A name selects a field if its four columns are those of the documented name. */
  ghost predicate Selects(name: string, f: Field) {
    SameColumns(name, NameOf(f))
  }

  /** Whitespace and quotation marks, which are passed over in front of an identifier. */
  predicate PassedOver(s: string) {
    forall i :: 0 <= i < |s| ==> IsWhitespace(s[i]) || s[i] == '\"'
  }

  /** A field of an entry with everything around its tokens. */
  datatype FieldText = FieldText(field: Field, name: string, beforeEquals: string, beforeValue: string,
                                 value: string, beforeSemicolon: string)
  {
    function Render(): (s: string)
      ensures |s| >= 3
    {
      "." + name + beforeEquals + "=" + beforeValue + Quoted(field, value) + beforeSemicolon + ";"
    }

    /** The field can follow where `characters` characters have been counted in the text. */
    ghost predicate Valid(characters: nat) {
      && AllNameCharacters(name) && Selects(name, field)
      && AllWhitespace(beforeEquals) && AllWhitespace(beforeSemicolon)
      && if field == Text then
           AllWhitespace(beforeValue) && AllTextCharacters(value) && 1 <= characters + |value| <= 255
         else
           PassedOver(beforeValue) && ValidIdentifier(value)
    }
  }

  /** The fields that an entry has been given so far. */
  datatype Given = Given(data: bool, length: bool, characters: nat) {
    function With(f: FieldText): Given {
      match f.field
      case Data => this.(data := true)
      case Length => this.(length := true)
      case Text => this.(characters := characters + |f.value|)
    }

    predicate Complete() {
      data && length && characters > 0
    }
  }

  const NOTHING_GIVEN := Given(false, false, 0)

  /**
   A file in which `n` entries have been read: whitespace and comments, and entries in braces. There is at
   least one entry. Behind the 33rd, opening braces are passed over.
   */
  ghost predicate File(s: string, n: nat)
    decreases |s|
  {
    || (s == "" && 0 < n)
    || (s != "" && IsWhitespace(s[0]) && File(s[1..], n))
    || (exists rest: string :: BeginsWithComment(s, rest) && |rest| < |s| && File(rest, n))
    || (s != "" && s[0] == '{' && n < MAX_ENTRIES && Fields(s[1..], n, NOTHING_GIVEN))
    || (s != "" && s[0] == '{' && n >= MAX_ENTRIES && File(s[1..], n))
  }

  /** The rest of an entry behind its opening brace: whitespace, comments and fields; all three are given at its end. */
  ghost predicate Fields(s: string, n: nat, given: Given)
    decreases |s|
  {
    || (s != "" && IsWhitespace(s[0]) && Fields(s[1..], n, given))
    || (exists rest: string :: BeginsWithComment(s, rest) && |rest| < |s| && Fields(rest, n, given))
    || (exists f: FieldText ::
          f.Valid(given.characters) && f.Render() <= s && Fields(s[|f.Render()|..], n, given.With(f)))
    || (s != "" && s[0] == '}' && given.Complete() && File(s[1..], n + 1))
  }

  // ----- The same for files that are rejected: where they leave the grammar, and with which status -----

  /** A slash that begins no comment, or one that does not end. */
  ghost predicate BadComment(s: string, status: Status) {
    s != "" && s[0] == '/' && if "/*" <= s then (forall n :: !FirstEndAt(s[2..], n)) && status == CommentUnterminated
                              else status == CommentStartInvalid
  }

  /** Behind a value, something else than a semicolon. */
  ghost predicate BadSemicolon(s: string, status: Status) {
    exists w: string, u: string ::
      && s == w + u && AllWhitespace(w)
      && if u == "" then status == FieldMissingNewline
         else !IsWhitespace(u[0]) && u[0] != ';' && status == MalformedField
  }

  ghost predicate BadIdentifier(s: string, status: Status) {
    exists v: string, u: string ::
      && s == v + u && ValidIdentifier(v)
      && if u == "" then status == FieldMissingNewline
         else if IsWhitespace(u[0]) then BadSemicolon(u, status)
         else u[0] in {'{', '}', '/', '*', '\"'} && status == MalformedField
  }

  /** Behind `m` counted characters, what a text cannot go on with. */
  ghost predicate TextStops(m: nat, u: string, status: Status) {
    if u == "" then status == EntryUnterminated
    else if u[0] == '\"' then
      if m == 0 then status == ValueEmpty else BadSemicolon(u[1..], status)
    else if IsTextCharacter(u[0]) then m == 255 && status == ValueTooLong
    else status == ValueBadCharacter
  }

  /** A text behind its first quotation mark; `characters` have been counted in the same field before. */
  ghost predicate BadText(s: string, characters: nat, status: Status) {
    exists v: string, u: string ::
      s == v + u && AllTextCharacters(v) && characters + |v| <= 255 && TextStops(characters + |v|, u, status)
  }

  ghost predicate BadValue(f: Field, s: string, characters: nat, status: Status) {
    exists q: string, u: string ::
      && s == q + u && (if f == Text then AllWhitespace(q) else PassedOver(q))
      && if u == "" then status == FieldMissingValue
         else if u[0] in {'{', '}', '/', '*', '.'} then status == MalformedField
         else if u[0] == ';' then status == FieldMissingValue
         else if f != Text then BadIdentifier(u, status)
         else if u[0] == '\"' then BadText(u[1..], characters, status)
         else !IsWhitespace(u[0]) && status == if u[0] == '=' then MalformedField else FieldIncorrectTypeText
  }

  /** A known name with something else than a separator behind it, or with a value that is none. */
  ghost predicate BadSeparator(f: Field, s: string, characters: nat, status: Status) {
    exists w: string, u: string ::
      && s == w + u && AllWhitespace(w)
      && if u == "" then w != "" && status == FieldMissingSeparator
         else if u[0] == '=' then BadValue(f, u[1..], characters, status)
         else w != "" && !IsWhitespace(u[0]) && status == FieldMissingSeparator
  }

  /** A field that is broken off, behind its dot. */
  ghost predicate BadField(s: string, characters: nat, status: Status) {
    exists name: string, t: string ::
      && s == name + t && AllNameCharacters(name)
      && if t == "" then status == FieldMissingSeparator
         else if IsWhitespace(t[0]) || t[0] == '=' then
           || ((forall f: Field :: !Selects(name, f)) && status == UnknownField)
           || (exists f: Field :: Selects(name, f) && BadSeparator(f, t, characters, status))
         else !IsNameCharacter(t[0]) && status == if t[0] == ';' then FieldMissingSeparator else MalformedField
  }

  /** Between entries: what no file can go on with. */
  ghost predicate BadBetweenEntries(s: string, n: nat, status: Status) {
    if s == "" then n == 0 && status == EmptyFile
    else if s[0] == '/' then BadComment(s, status)
    else !IsWhitespace(s[0]) && s[0] != '{' && status == if s[0] == '*' then CommentEndUnmatched else EntryMalformed
  }

  /** Between fields: what no entry can go on with. */
  ghost predicate BadBetweenFields(s: string, given: Given, status: Status) {
    if s == "" then status == EntryUnterminated
    else if s[0] == '/' then BadComment(s, status)
    else if s[0] == '.' then BadField(s[1..], given.characters, status)
    else if s[0] == '}' then !given.Complete() && status == MissingRequiredField
    else !IsWhitespace(s[0]) && status == if s[0] == '*' then CommentEndUnmatched
                                          else if s[0] in {'=', ';'} then FieldMissingIdentifier else MalformedField
  }

  ghost predicate FileFails(s: string, n: nat, status: Status)
    decreases |s|
  {
    || (s != "" && IsWhitespace(s[0]) && FileFails(s[1..], n, status))
    || (exists rest: string :: BeginsWithComment(s, rest) && |rest| < |s| && FileFails(rest, n, status))
    || (s != "" && s[0] == '{' && n < MAX_ENTRIES && FieldsFail(s[1..], n, NOTHING_GIVEN, status))
    || (s != "" && s[0] == '{' && n >= MAX_ENTRIES && FileFails(s[1..], n, status))
    || BadBetweenEntries(s, n, status)
  }

  ghost predicate FieldsFail(s: string, n: nat, given: Given, status: Status)
    decreases |s|
  {
    || (s != "" && IsWhitespace(s[0]) && FieldsFail(s[1..], n, given, status))
    || (exists rest: string :: BeginsWithComment(s, rest) && |rest| < |s| && FieldsFail(rest, n, given, status))
    || (exists f: FieldText ::
          f.Valid(given.characters) && f.Render() <= s && FieldsFail(s[|f.Render()|..], n, given.With(f), status))
    || (s != "" && s[0] == '}' && given.Complete() && FileFails(s[1..], n + 1, status))
    || BadBetweenFields(s, given, status)
  }

  // ----- The state machine without positions -----

  /** Characters other than newlines, one by one. */
  function Feed(lex: Lex, s: string): (r: Lex)
    requires lex.Valid()
    ensures r.Valid()
    decreases |s|
  {
    if s == "" || lex.state.Exited? then lex else Feed(Consume(lex, s[0]), s[1..])
  }

  function Outcome(lex: Lex, s: string): Status
    requires lex.Valid()
  {
    AtEnd(Feed(lex, s))
  }

  lemma ExitedStays(lex: Lex, s: string)
    requires lex.Valid() && lex.state.Exited?
    ensures Feed(lex, s) == lex
  {
  }

  lemma {:induction false} FeedAppend(lex: Lex, a: string, b: string)
    requires lex.Valid()
    ensures Feed(lex, a + b) == Feed(Feed(lex, a), b)
    decreases |a|
  {
    hide Consume;
    if a == "" {
      assert a + b == b;
    } else if lex.state.Exited? {
      ExitedStays(lex, b);
    } else {
      assert (a + b)[1..] == a[1..] + b;
      FeedAppend(Consume(lex, a[0]), a[1..], b);
    }
  }

  lemma FeedFirst(lex: Lex, s: string)
    requires lex.Valid() && s != "" && !lex.state.Exited?
    ensures Feed(lex, s) == Feed(Consume(lex, s[0]), s[1..])
  {
  }

  /** The same but for the positions of slices. */
  ghost predicate Same(a: Lex, b: Lex) {
    && a.state == b.state && a.capacity == b.capacity && |a.entries| == |b.entries|
    && forall i :: 0 <= i < |a.entries| ==> SameCounts(a.entries[i], b.entries[i])
  }

  predicate SameCounts(a: Entry, b: Entry) {
    && a.data.characters == b.data.characters
    && a.length.characters == b.length.characters
    && a.text.characters == b.text.characters
  }

  lemma SameTop(a: Lex, b: Lex, e: Entry, e': Entry)
    requires Same(a, b) && a.entries != [] && SameCounts(e, e')
    ensures SameCounts(a.Top(), b.Top()) && Same(a.WithTop(e), b.WithTop(e'))
  {
  }

  lemma SameSet(a: Lex, b: Lex, f: Field, s: Slice, s': Slice)
    requires Same(a, b) && a.entries != [] && s.characters == s'.characters
    ensures a.Top().Get(f).characters == b.Top().Get(f).characters
    ensures Same(a.WithTop(a.Top().With(f, s)), b.WithTop(b.Top().With(f, s')))
  {
    assert SameCounts(a.Top(), b.Top());
    SameTop(a, b, a.Top().With(f, s), b.Top().With(f, s'));
  }

  lemma ValueIdentifierSame(a: Lex, b: Lex, f: Field, c: char)
    requires a.entries != [] && Same(a, b)
    ensures Same(InValueIdentifier(a, f, c), InValueIdentifier(b, f, c))
  {
    hide IsWhitespace;
    var s, s' := a.Top().Get(f), b.Top().Get(f);
    SameSet(a, b, f, s, s.(start := s.start));
    SameSet(a, b, f, s.(characters := s.characters + 1), s'.(characters := s.characters + 1));
  }

  lemma ValueTextSame(a: Lex, b: Lex, c: char)
    requires a.entries != [] && Same(a, b)
    ensures Same(InValueText(a, c), InValueText(b, c))
  {
    hide IsTextCharacter;
    var s, s' := a.Top().text, b.Top().text;
    SameSet(a, b, Text, s.(characters := s.characters + 1), s'.(characters := s.characters + 1));
  }

  lemma WaitValueSame(a: Lex, b: Lex, f: Field, c: char)
    requires a.entries != [] && Same(a, b)
    ensures Same(InWaitValue(a, f, c), InWaitValue(b, f, c))
  {
    hide IsWhitespace;
    hide InValueIdentifier;
    hide Same;
    CountsOfTop(a, b, f);
    var s, s' := a.Top().Get(f), b.Top().Get(f);
    SameSet(a, b, f, s.(start := a.position - 1), s'.(start := b.position - 1));
    SameSet(a, b, f, s.(start := a.position), s'.(start := b.position));
    var a', b' := a.WithTop(a.Top().With(f, s.(start := a.position - 1))),
                  b.WithTop(b.Top().With(f, s'.(start := b.position - 1)));
    SameGo(a', b', ValueIdentifier(f));
    ValueIdentifierSame(a'.Go(ValueIdentifier(f)), b'.Go(ValueIdentifier(f)), f, c);
    SameGo(a.WithTop(a.Top().With(f, s.(start := a.position))), b.WithTop(b.Top().With(f, s'.(start := b.position))),
           ValueText);
    SameFails(a, b);
  }

  lemma CountsOfTop(a: Lex, b: Lex, f: Field)
    requires a.entries != [] && Same(a, b)
    ensures b.entries != [] && a.Top().Get(f).characters == b.Top().Get(f).characters
  {
    assert SameCounts(a.Top(), b.Top());
  }

  lemma SameGo(a: Lex, b: Lex, next: State)
    requires Same(a, b)
    ensures Same(a.Go(next), b.Go(next))
  {
  }

  lemma SameFails(a: Lex, b: Lex)
    requires Same(a, b)
    ensures forall status :: Same(a.Fail(status), b.Fail(status))
  {
  }

  lemma OtherStatesSame(a: Lex, b: Lex, c: char)
    requires a.Valid() && b.Valid() && Same(a, b)
    requires !a.state.WaitValue? && !a.state.ValueIdentifier? && !a.state.ValueText?
    ensures Same(Consume(a, c), Consume(b, c))
  {
    hide IsWhitespace;
    hide DigestHash;
    if a.entries != [] {
      assert SameCounts(a.Top(), b.Top());
    }
  }

  lemma ConsumeSame(a: Lex, b: Lex, c: char)
    requires a.Valid() && b.Valid() && Same(a, b)
    ensures Same(Consume(a, c), Consume(b, c))
  {
    assert a.state.InEntry() ==> a.entries != [];
    assert a.state == b.state;
    hide Same;
    hide InWaitValue;
    hide InValueIdentifier;
    hide InValueText;
    match a.state
    case WaitValue(f) => WaitValueSame(a, b, f, c);
    case ValueIdentifier(f) => ValueIdentifierSame(a, b, f, c);
    case ValueText => ValueTextSame(a, b, c);
    case _ => OtherStatesSame(a, b, c);
  }

  lemma AtEndSame(a: Lex, b: Lex)
    requires Same(a, b)
    ensures AtEnd(a) == AtEnd(b)
  {
  }

  /** The outcome of a file is that of its characters other than newlines. */
  lemma {:induction false} FinishIsFeed(raw: string, lex: Lex, b: Lex)
    requires lex.Valid() && lex.position <= |raw| && b.Valid() && Same(lex, b)
    ensures Finish(raw, lex).state.status == AtEnd(Feed(b, Stripped(raw[lex.position..])))
    decreases |raw| - lex.position
  {
    hide Consume;
    hide Feed;
    hide Finish;
    AtEndSame(lex, b);
    if lex.state.Exited? {
      FinishStays(raw, lex);
      ExitedStays(b, Stripped(raw[lex.position..]));
    } else if lex.position == |raw| {
      FinishAtEnd(raw, lex);
      FeedNothing(b);
    } else {
      var rest := raw[lex.position..];
      assert rest[1..] == raw[lex.position + 1..];
      var next := lex.(position := lex.position + 1);
      if rest[0] == '\n' {
        NewlineIsInvisible(raw, lex);
        FinishIsFeed(raw, next, b);
      } else {
        OneCharacter(raw, lex);
        SameMoved(lex, b);
        ConsumeSame(next, b, rest[0]);
        FinishIsFeed(raw, Consume(next, rest[0]), Consume(b, rest[0]));
        StrippedFirst(rest);
        FeedFirst(b, Stripped(rest));
      }
    }
  }

  lemma FinishStays(raw: string, lex: Lex)
    requires lex.Valid() && lex.position <= |raw| && lex.state.Exited?
    ensures Finish(raw, lex) == lex && AtEnd(lex) == lex.state.status
  {
  }

  lemma FinishAtEnd(raw: string, lex: Lex)
    requires lex.Valid() && lex.position == |raw| && !lex.state.Exited?
    ensures Finish(raw, lex).state == Exited(AtEnd(lex))
  {
    assert Step(raw, lex) == lex.(state := Exited(AtEnd(lex)));
  }

  lemma FeedNothing(lex: Lex)
    requires lex.Valid()
    ensures Feed(lex, "") == lex
  {
  }

  lemma SameMoved(lex: Lex, b: Lex)
    requires Same(lex, b)
    ensures Same(lex.(position := lex.position + 1), b)
  {
  }

  lemma StrippedFirst(s: string)
    requires s != "" && s[0] != '\n'
    ensures Stripped(s) == [s[0]] + Stripped(s[1..]) && Stripped(s)[0] == s[0] && Stripped(s)[1..] == Stripped(s[1..])
  {
  }

  // ----- Runs within one construct -----

  lemma OutcomeFirst(lex: Lex, s: string)
    requires lex.Valid() && s != "" && !lex.state.Exited?
    ensures Outcome(lex, s) == Outcome(Consume(lex, s[0]), s[1..])
  {
    FeedFirst(lex, s);
  }

  lemma OutcomeOfNothing(lex: Lex)
    requires lex.Valid()
    ensures Outcome(lex, "") == AtEnd(lex)
  {
    FeedNothing(lex);
  }

  lemma OutcomeOfFailure(lex: Lex, status: Status, s: string)
    requires lex.Valid()
    ensures lex.Fail(status).Valid() && Outcome(lex.Fail(status), s) == status
  {
    ExitedStays(lex.Fail(status), s);
  }

  /** The longest front of characters of one kind. */
  lemma {:induction false} Split(kind: char -> bool, s: string) returns (a: string, b: string)
    ensures s == a + b && (forall i :: 0 <= i < |a| ==> kind(a[i])) && (b != "" ==> !kind(b[0]))
  {
    if s == "" || !kind(s[0]) {
      a, b := "", s;
    } else {
      a, b := Split(kind, s[1..]);
      a := [s[0]] + a;
    }
  }

  /** Whitespace changes nothing in the states that skip it. */
  lemma {:induction false} SkipsAll(lex: Lex, w: string, rest: string)
    requires lex.Valid() && Skips(lex.state) && AllWhitespace(w)
    ensures Outcome(lex, w + rest) == Outcome(lex, rest)
    decreases |w|
  {
    hide Outcome;
    hide Consume;
    if w == "" {
      assert w + rest == rest;
    } else {
      OutcomeFirst(lex, w + rest);
      SkipsOver(lex, w[0]);
      assert (w + rest)[1..] == w[1..] + rest;
      SkipsAll(lex, w[1..], rest);
    }
  }

  lemma LongerName(v: bv32, name: string)
    requires name != ""
    ensures HashFrom(v, name) == HashFrom(DigestHash(v, name[0]), name[1..])
  {
  }

  lemma {:induction false} DigestsAll(lex: Lex, name: string, rest: string)
    requires lex.Valid() && lex.state.EntryIdentifier? && AllNameCharacters(name)
    ensures Outcome(lex, name + rest) == Outcome(lex.Go(EntryIdentifier(HashFrom(lex.state.hash, name))), rest)
    decreases |name|
  {
    hide Outcome;
    hide Consume;
    hide DigestHash;
    if name == "" {
      assert name + rest == rest;
    } else {
      OutcomeFirst(lex, name + rest);
      DigestsName(lex, name[0]);
      assert (name + rest)[1..] == name[1..] + rest;
      LongerName(lex.state.hash, name);
      DigestsAll(lex.Go(EntryIdentifier(DigestHash(lex.state.hash, name[0]))), name[1..], rest);
    }
  }

  lemma LongerKeeps(lex: Lex, f: Field, n: nat)
    requires lex.Valid() && lex.entries != []
    ensures Longer(lex, f, n).Valid() && Longer(lex, f, n).state == lex.state && Longer(lex, f, n).entries != []
    ensures Longer(lex, f, n).Top().Get(f).characters == lex.Top().Get(f).characters + n
  {
  }

  lemma {:induction false} CollectsAll(lex: Lex, f: Field, v: string, rest: string)
    requires lex.Valid() && lex.state == ValueIdentifier(f) && AllIdentifierCharacters(v)
    ensures Longer(lex, f, |v|).Valid() && Outcome(lex, v + rest) == Outcome(Longer(lex, f, |v|), rest)
    decreases |v|
  {
    hide Outcome;
    hide Consume;
    hide Longer;
    LongerKeeps(lex, f, |v|);
    LongerTwice(lex, f, if v == "" then 0 else |v| - 1);
    if v == "" {
      assert v + rest == rest;
    } else {
      OutcomeFirst(lex, v + rest);
      CollectsIdentifier(lex, f, v[0]);
      LongerKeeps(lex, f, 1);
      assert (v + rest)[1..] == v[1..] + rest;
      CollectsAll(Longer(lex, f, 1), f, v[1..], rest);
    }
  }

  lemma {:induction false} CollectsAllText(lex: Lex, v: string, rest: string)
    requires lex.Valid() && lex.state == ValueText && AllTextCharacters(v) && lex.Top().text.characters + |v| <= 255
    ensures Longer(lex, Text, |v|).Valid() && Outcome(lex, v + rest) == Outcome(Longer(lex, Text, |v|), rest)
    decreases |v|
  {
    hide Outcome;
    hide Consume;
    hide Longer;
    LongerKeeps(lex, Text, |v|);
    LongerTwice(lex, Text, if v == "" then 0 else |v| - 1);
    if v == "" {
      assert v + rest == rest;
    } else {
      OutcomeFirst(lex, v + rest);
      CollectsText(lex, v[0]);
      LongerKeeps(lex, Text, 1);
      assert (v + rest)[1..] == v[1..] + rest;
      CollectsAllText(Longer(lex, Text, 1), v[1..], rest);
    }
  }

  /** The field of the entry being read, set anew. */
  function Set(lex: Lex, f: Field, s: Slice): Lex
    requires lex.entries != []
  {
    lex.WithTop(lex.Top().With(f, s))
  }

  lemma SetKeepsValid(lex: Lex, f: Field, s: Slice, next: State)
    requires lex.Valid() && lex.entries != []
    ensures var r := Set(lex, f, s);
            && r.Valid() && r.state == lex.state && r.entries != [] && r.position == lex.position
            && r.Top().Get(f) == s && (forall s': Slice :: Set(r, f, s') == Set(lex, f, s'))
    ensures (next.ValueIdentifier? ==> next.field != Text) ==> Set(lex, f, s).Go(next).Valid()
  {
  }

  /** Quotation marks and whitespace in front of an identifier move the start at most. */
  lemma {:induction false} PassesAll(lex: Lex, f: Field, q: string, rest: string) returns (s: Slice)
    requires lex.Valid() && lex.state == WaitValue(f) && f != Text && PassedOver(q)
    ensures s.characters == lex.Top().Get(f).characters && Set(lex, f, s).Valid()
    ensures Outcome(lex, q + rest) == Outcome(Set(lex, f, s), rest)
    decreases |q|
  {
    hide Outcome;
    hide Consume;
    hide Set;
    s := lex.Top().Get(f);
    SetKeepsValid(lex, f, s, lex.state);
    SetToItself(lex, f);
    if q == "" {
      assert q + rest == rest;
    } else {
      OutcomeFirst(lex, q + rest);
      WaitStep(lex, f, q[0]);
      assert (q + rest)[1..] == q[1..] + rest;
      if q[0] == '\"' {
        var moved := s.(start := lex.position - 1);
        SetKeepsValid(lex, f, moved, lex.state);
        s := PassesAll(Set(lex, f, moved), f, q[1..], rest);
      } else {
        s := PassesAll(lex, f, q[1..], rest);
      }
      SetKeepsValid(lex, f, s, lex.state);
    }
  }

  lemma SetToItself(lex: Lex, f: Field)
    requires lex.entries != []
    ensures Set(lex, f, lex.Top().Get(f)) == lex
  {
    var e := lex.Top();
    assert e.With(f, e.Get(f)) == e;
  }

  // ----- What one character does -----

  lemma EntryStep(lex: Lex, c: char)
    requires lex.Valid() && lex.state == EntryInitial
    ensures Consume(lex, c)
         == if IsWhitespace(c) then lex
            else if c == '/' then lex.Go(CommentStart(true))
            else if c == '.' then lex.Go(EntryIdentifier(0))
            else if c == '}' && lex.Top().Complete() then lex.Go(Initial)
            else lex.Fail(if c == '}' then MissingRequiredField
                          else if c == '*' then CommentEndUnmatched
                          else if c in {'=', ';'} then FieldMissingIdentifier else MalformedField)
  {
  }

  lemma InitialStep(lex: Lex, c: char)
    requires lex.Valid() && lex.state == Initial
    ensures Consume(lex, c)
         == if IsWhitespace(c) then lex
            else if c == '/' then lex.Go(CommentStart(false))
            else if c == '{' then PushEntry(lex)
            else lex.Fail(if c == '*' then CommentEndUnmatched else EntryMalformed)
  {
  }

  lemma CommentStep(lex: Lex, inEntry: bool, c: char)
    requires lex.Valid() && lex.state == CommentStart(inEntry)
    ensures Consume(lex, c) == if c == '*' then lex.Go(Comment(inEntry)) else lex.Fail(CommentStartInvalid)
  {
  }

  lemma NameStep(lex: Lex, c: char)
    requires lex.Valid() && lex.state.EntryIdentifier? && !IsNameCharacter(c)
    ensures !IsWhitespace(c) && c != '=' ==>
              Consume(lex, c) == lex.Fail(if c == ';' then FieldMissingSeparator else MalformedField)
    ensures IsWhitespace(c) || c == '=' ==>
              && (forall f: Field :: lex.state.hash == HashOf(f) ==>
                    Consume(lex, c) == lex.Go(if c == '=' then WaitValue(f) else WaitSeparator(f)))
              && ((forall f: Field :: lex.state.hash != HashOf(f)) ==> Consume(lex, c) == lex.Fail(UnknownField))
  {
    assert lex.state.hash == HashOf(Data) || lex.state.hash == HashOf(Length) || lex.state.hash == HashOf(Text)
        || forall f: Field :: lex.state.hash != HashOf(f);
  }

  lemma SeparatorStep(lex: Lex, f: Field, c: char)
    requires lex.Valid() && lex.state == WaitSeparator(f) && !IsWhitespace(c)
    ensures Consume(lex, c) == if c == '=' then lex.Go(WaitValue(f)) else lex.Fail(FieldMissingSeparator)
  {
  }

  lemma WaitStep(lex: Lex, f: Field, c: char)
    requires lex.Valid() && lex.state == WaitValue(f) && f != Text
    ensures lex.entries != []
    ensures Consume(lex, c)
         == if IsWhitespace(c) then lex
            else if c == '\"' then Set(lex, f, lex.Top().Get(f).(start := lex.position - 1))
            else if c in {'{', '}', '/', '*', '.'} then lex.Fail(MalformedField)
            else if c == ';' then lex.Fail(FieldMissingValue)
            else Set(lex, f, Slice(lex.position - 1, lex.Top().Get(f).characters + 1)).Go(ValueIdentifier(f))
  {
  }

  lemma WaitTextStep(lex: Lex, c: char)
    requires lex.Valid() && lex.state == WaitValue(Text)
    ensures lex.entries != []
    ensures Consume(lex, c)
         == if IsWhitespace(c) then lex
            else if c == '\"' then Set(lex, Text, Slice(lex.position, lex.Top().text.characters)).Go(ValueText)
            else lex.Fail(if c in {'{', '}', '/', '*', '.', '='} then MalformedField
                          else if c == ';' then FieldMissingValue else FieldIncorrectTypeText)
  {
  }

  lemma IdentifierStep(lex: Lex, f: Field, c: char)
    requires lex.Valid() && lex.state == ValueIdentifier(f) && lex.Top().Get(f).characters > 0
    requires !IsIdentifierCharacter(c)
    ensures Consume(lex, c)
         == if IsWhitespace(c) then lex.Go(WaitNewline)
            else if c == ';' then lex.Go(EntryInitial) else lex.Fail(MalformedField)
  {
  }

  lemma TextStep(lex: Lex, c: char)
    requires lex.Valid() && lex.state == ValueText && lex.Top().text.characters <= 255
    requires !(IsTextCharacter(c) && lex.Top().text.characters < 255)
    ensures Consume(lex, c)
         == if c == '\"' && lex.Top().text.characters > 0 then lex.Go(WaitNewline)
            else lex.Fail(if c == '\"' then ValueEmpty else if IsTextCharacter(c) then ValueTooLong
                          else ValueBadCharacter)
  {
  }

  lemma SemicolonStep(lex: Lex, c: char)
    requires lex.Valid() && lex.state == WaitNewline && !IsWhitespace(c)
    ensures Consume(lex, c) == if c == ';' then lex.Go(EntryInitial) else lex.Fail(MalformedField)
  {
  }

  // ----- Comments -----

  function Pending(star: bool): string {
    if star then "*" else ""
  }

  lemma FirstEndStep(c: char, s: string, n: nat)
    requires FirstEndAt(s, n) && !(c == '*' && s[0] == '/')
    ensures FirstEndAt([c] + s, n + 1)
  {
    var t := [c] + s;
    forall i | 0 <= i < n + 1 ensures !Comments.EndsAt(t, i) {
      if i > 0 {
        assert !Comments.EndsAt(s, i - 1);
      }
    }
    assert Comments.EndsAt(s, n);
  }

  lemma FirstEndInTail(c: char, s: string, n: nat)
    requires FirstEndAt([c] + s, n) && !(c == '*' && s != "" && s[0] == '/')
    ensures n > 0 && FirstEndAt(s, n - 1)
  {
    var t := [c] + s;
    assert Comments.EndsAt(t, n);
    forall i | 0 <= i < n - 1 ensures !Comments.EndsAt(s, i) {
      assert !Comments.EndsAt(t, i + 1);
    }
    assert Comments.EndsAt(s, n - 1);
  }

  /** The end of a comment, seen from one character earlier. */
  lemma LaterEnd(star: bool, s: string, n: nat) returns (n': nat)
    requires s != "" && !(star && s[0] == '/') && FirstEndAt(Pending(s[0] == '*') + s[1..], n)
    ensures FirstEndAt(Pending(star) + s, n')
  {
    hide FirstEndAt;
    PendingTail(s);
    n' := n;
    if s[0] != '*' {
      EndIsInside(s[1..], n);
      FirstEndStep(s[0], s[1..], n);
      n' := n' + 1;
    }
    PendingFront(star, s);
    if star {
      FirstEndStep('*', s, n');
      n' := n' + 1;
    }
  }

  lemma EndIsInside(s: string, n: nat)
    requires FirstEndAt(s, n)
    ensures n + 2 <= |s|
  {
  }

  lemma PendingTail(s: string)
    requires s != ""
    ensures Pending(s[0] == '*') + s[1..] == if s[0] == '*' then s else s[1..]
    ensures s == [s[0]] + s[1..]
  {
  }

  lemma PendingFront(star: bool, s: string)
    ensures Pending(star) + s == if star then ['*'] + s else s
  {
  }

  lemma EarlierEnd(star: bool, s: string, n: nat) returns (n': nat)
    requires s != "" && !(star && s[0] == '/') && FirstEndAt(Pending(star) + s, n)
    ensures FirstEndAt(Pending(s[0] == '*') + s[1..], n')
    ensures n + 2 <= |Pending(star) + s|
    ensures (Pending(star) + s)[n + 2..] == (Pending(s[0] == '*') + s[1..])[n' + 2..]
  {
    hide FirstEndAt;
    hide Pending;
    PendingFront(star, s);
    EndIsInside(Pending(star) + s, n);
    var m := n;
    if star {
      FirstEndInTail('*', s, n);
      m := n - 1;
      EndIsInside(s, m);
      TailOfFront('*', s, m + 2);
    }
    n' := EarlierEndInTail(s, m);
  }

  lemma EarlierEndInTail(s: string, n: nat) returns (n': nat)
    requires s != "" && FirstEndAt(s, n)
    ensures FirstEndAt(Pending(s[0] == '*') + s[1..], n')
    ensures n + 2 <= |s| && s[n + 2..] == (Pending(s[0] == '*') + s[1..])[n' + 2..]
  {
    hide FirstEndAt;
    hide Pending;
    PendingTail(s);
    EndIsInside(s, n);
    n' := n;
    if s[0] != '*' {
      FirstEndInTail(s[0], s[1..], n);
      n' := n - 1;
      EndIsInside(s[1..], n');
      TailOfFront(s[0], s[1..], n' + 2);
    }
  }

  lemma TailOfFront(c: char, s: string, i: nat)
    requires i <= |s|
    ensures ([c] + s)[i + 1..] == s[i..]
  {
  }

  /** Up to its first end, a comment is read over. */
  lemma {:induction false} CommentIsRead(lex: Lex, inEntry: bool, star: bool, s: string, n: nat)
    requires lex.Valid() && lex.state == Comments.Inside(inEntry, star) && FirstEndAt(Pending(star) + s, n)
    ensures Outcome(lex, s) == Outcome(lex.Go(Comments.Resumed(inEntry)), (Pending(star) + s)[n + 2..])
    decreases |s|
  {
    hide Consume;
    hide Outcome;
    var t := Pending(star) + s;
    assert Comments.EndsAt(t, n);
    OutcomeFirst(lex, s);
    Comments.InsideStep(lex, inEntry, star, s[0]);
    if star && s[0] == '/' {
      assert n == 0 by { assert Comments.EndsAt(t, 0); }
      assert t[2..] == s[1..];
    } else {
      var next := lex.Go(Comments.Inside(inEntry, s[0] == '*'));
      var n' := EarlierEnd(star, s, n);
      CommentIsRead(next, inEntry, s[0] == '*', s[1..], n');
    }
  }

  lemma EndIsFirst(t: string)
    requires |t| >= 2 && t[0] == '*' && t[1] == '/'
    ensures FirstEndAt(t, 0)
  {
    assert Comments.EndsAt(t, 0);
  }

  /** A comment without an end is never left. */
  lemma {:induction false} CommentNeverEnds(lex: Lex, inEntry: bool, star: bool, s: string)
    requires lex.Valid() && lex.state == Comments.Inside(inEntry, star)
    requires forall n :: !FirstEndAt(Pending(star) + s, n)
    ensures Outcome(lex, s) == CommentUnterminated
    decreases |s|
  {
    hide Consume;
    hide Outcome;
    if s == "" {
      OutcomeOfNothing(lex);
    } else {
      OutcomeFirst(lex, s);
      Comments.InsideStep(lex, inEntry, star, s[0]);
      if star && s[0] == '/' {
        EndIsFirst(Pending(star) + s);
        assert false;
      }
      hide FirstEndAt;
      var inner := Pending(s[0] == '*') + s[1..];
      forall n: nat ensures !FirstEndAt(inner, n) {
        if FirstEndAt(inner, n) {
          var n' := LaterEnd(star, s, n);
        }
      }
      CommentNeverEnds(lex.Go(Comments.Inside(inEntry, s[0] == '*')), inEntry, s[0] == '*', s[1..]);
    }
  }

  lemma CommentBegins(lex: Lex, inEntry: bool, s: string)
    requires lex.Valid() && lex.state == Comments.Resumed(inEntry) && s != "" && s[0] == '/'
    ensures if "/*" <= s then Outcome(lex, s) == Outcome(lex.Go(Comment(inEntry)), s[2..])
            else Outcome(lex, s) == CommentStartInvalid
  {
    hide Consume;
    hide Outcome;
    OutcomeFirst(lex, s);
    Comments.StartsComment(lex, inEntry);
    var begun := lex.Go(CommentStart(inEntry));
    if |s| == 1 {
      assert s[1..] == "";
      OutcomeOfNothing(begun);
    } else {
      OutcomeFirst(begun, s[1..]);
      CommentStep(begun, inEntry, s[1]);
      OutcomeOfFailure(begun, CommentStartInvalid, s[1..][1..]);
      assert s[1..][1..] == s[2..];
    }
  }

  lemma CommentIf(lex: Lex, inEntry: bool, s: string, rest: string)
    requires lex.Valid() && lex.state == Comments.Resumed(inEntry) && BeginsWithComment(s, rest)
    ensures Outcome(lex, s) == Outcome(lex, rest)
  {
    hide Consume;
    hide Outcome;
    var n :| FirstEndAt(s[2..], n) && rest == s[n + 4..];
    CommentBegins(lex, inEntry, s);
    assert "" + s[2..] == s[2..] && s[2..][n + 2..] == rest;
    CommentIsRead(lex.Go(Comment(inEntry)), inEntry, false, s[2..], n);
    assert lex.Go(Comment(inEntry)).Go(Comments.Resumed(inEntry)) == lex;
  }

  lemma BadCommentIf(lex: Lex, inEntry: bool, s: string, status: Status)
    requires lex.Valid() && lex.state == Comments.Resumed(inEntry) && BadComment(s, status)
    ensures Outcome(lex, s) == status
  {
    hide Outcome;
    CommentBegins(lex, inEntry, s);
    if "/*" <= s {
      assert "" + s[2..] == s[2..];
      CommentNeverEnds(lex.Go(Comment(inEntry)), inEntry, false, s[2..]);
    }
  }

  /** A slash begins a comment, or the file fails there. */
  lemma CommentOrBad(s: string) returns (ok: bool, rest: string, status: Status)
    requires s != "" && s[0] == '/'
    ensures if ok then BeginsWithComment(s, rest) && |rest| < |s| else BadComment(s, status)
  {
    ok, rest, status := false, "", CommentStartInvalid;
    if "/*" <= s {
      status := CommentUnterminated;
      if n :| FirstEndAt(s[2..], n) {
        ok, rest := true, s[n + 4..];
      }
    }
  }

  // ----- Values -----

  lemma SemicolonIf(lex: Lex, w: string, rest: string)
    requires lex.Valid() && lex.state == WaitNewline && AllWhitespace(w)
    ensures Outcome(lex, w + ";" + rest) == Outcome(lex.Go(EntryInitial), rest)
  {
    hide Outcome;
    hide Consume;
    assert w + ";" + rest == w + (";" + rest) && (";" + rest)[1..] == rest;
    SkipsAll(lex, w, ";" + rest);
    OutcomeFirst(lex, ";" + rest);
    SemicolonStep(lex, ';');
  }

  lemma BadSemicolonIf(lex: Lex, s: string, status: Status)
    requires lex.Valid() && lex.state == WaitNewline && BadSemicolon(s, status)
    ensures Outcome(lex, s) == status
  {
    hide Outcome;
    hide Consume;
    var w, u :|
      && s == w + u && AllWhitespace(w)
      && if u == "" then status == FieldMissingNewline
         else !IsWhitespace(u[0]) && u[0] != ';' && status == MalformedField;
    SkipsAll(lex, w, u);
    if u == "" {
      OutcomeOfNothing(lex);
    } else {
      OutcomeFirst(lex, u);
      SemicolonStep(lex, u[0]);
      OutcomeOfFailure(lex, MalformedField, u[1..]);
    }
  }

  lemma SemicolonOrBad(s: string) returns (ok: bool, w: string, rest: string, status: Status)
    ensures if ok then s == w + ";" + rest && AllWhitespace(w) else BadSemicolon(s, status)
  {
    var u;
    w, u := Split(c => IsWhitespace(c), s);
    ok, rest, status := u != "" && u[0] == ';', "", if u == "" then FieldMissingNewline else MalformedField;
    if ok {
      rest := u[1..];
      assert u == ";" + rest;
    }
  }

  /** The entry behind a value: one field has been set. */
  function Behind(lex: Lex, f: Field, s: Slice): Lex
    requires lex.entries != []
  {
    Set(lex, f, s).Go(EntryInitial)
  }

  lemma LongerSet(lex: Lex, f: Field, s: Slice, n: nat, next: State)
    requires lex.entries != []
    ensures Longer(Set(lex, f, s).Go(next), f, n) == Set(lex, f, s.(characters := s.characters + n)).Go(next)
  {
  }

  /** An identifier up to its end: the machine waits for a semicolon, or has met one, or fails. */
  lemma IdentifierRuns(lex: Lex, f: Field, n: nat, q: string, v: string, rest: string) returns (s: Slice)
    requires lex.Valid() && lex.state == WaitValue(f) && f != Text && lex.Top().Get(f).characters == n
    requires PassedOver(q) && ValidIdentifier(v)
    ensures s.characters == n + |v| && Set(lex, f, s).Go(ValueIdentifier(f)).Valid()
    ensures Outcome(lex, q + v + rest) == Outcome(Set(lex, f, s).Go(ValueIdentifier(f)), rest)
  {
    hide Outcome;
    hide Consume;
    hide Set;
    hide Longer;
    assert q + v + rest == q + (v + rest);
    var moved := PassesAll(lex, f, q, v + rest);
    SetKeepsValid(lex, f, moved, lex.state);
    var passed := Set(lex, f, moved);
    OutcomeFirst(passed, v + rest);
    WaitStep(passed, f, v[0]);
    FirstOfIdentifier(v);
    var first := Slice(lex.position - 1, n + 1);
    SetKeepsValid(lex, f, first, ValueIdentifier(f));
    assert (v + rest)[1..] == v[1..] + rest;
    CollectsAll(Set(lex, f, first).Go(ValueIdentifier(f)), f, v[1..], rest);
    LongerSet(lex, f, first, |v| - 1, ValueIdentifier(f));
    s := first.(characters := n + |v|);
  }

  lemma FirstOfIdentifier(v: string)
    requires ValidIdentifier(v)
    ensures !IsWhitespace(v[0]) && v[0] !in {'\"', '{', '}', '/', '*', '.', ';'} && AllIdentifierCharacters(v[1..])
  {
    assert IsIdentifierCharacter(v[0]);
  }

  lemma IdentifierIf(lex: Lex, f: Field, n: nat, q: string, v: string, w: string, rest: string) returns (s: Slice)
    requires lex.Valid() && lex.state == WaitValue(f) && f != Text && lex.Top().Get(f).characters == n
    requires PassedOver(q) && ValidIdentifier(v) && AllWhitespace(w)
    ensures s.characters == n + |v| && Behind(lex, f, s).Valid()
    ensures Outcome(lex, q + v + w + ";" + rest) == Outcome(Behind(lex, f, s), rest)
  {
    hide Outcome;
    hide Consume;
    hide Set;
    var tail := w + ";" + rest;
    assert q + v + w + ";" + rest == q + v + tail;
    s := IdentifierRuns(lex, f, n, q, v, tail);
    var read := Set(lex, f, s).Go(ValueIdentifier(f));
    SetKeepsValid(lex, f, s, EntryInitial);
    OutcomeFirst(read, tail);
    NoIdentifierCharacter(tail[0]);
    IdentifierStep(read, f, tail[0]);
    if w == "" {
      assert tail[0] == ';' && tail[1..] == rest;
    } else {
      assert tail[0] == w[0] && tail[1..] == w[1..] + ";" + rest;
      SemicolonIf(read.Go(WaitNewline), w[1..], rest);
      assert read.Go(WaitNewline).Go(EntryInitial) == Behind(lex, f, s);
    }
  }

  lemma NoIdentifierCharacter(c: char)
    ensures IsWhitespace(c) || c == ';' ==> !IsIdentifierCharacter(c)
    ensures c == ';' ==> !IsWhitespace(c)
  {
  }

  lemma BadIdentifierIf(lex: Lex, f: Field, q: string, s: string, status: Status)
    requires lex.Valid() && lex.state == WaitValue(f) && f != Text && PassedOver(q) && BadIdentifier(s, status)
    ensures Outcome(lex, q + s) == status
  {
    hide Outcome;
    hide Consume;
    hide Set;
    hide BadSemicolon;
    var v, u :|
      && s == v + u && ValidIdentifier(v)
      && if u == "" then status == FieldMissingNewline
         else if IsWhitespace(u[0]) then BadSemicolon(u, status)
         else u[0] in {'{', '}', '/', '*', '\"'} && status == MalformedField;
    assert q + s == q + v + u;
    var slice := IdentifierRuns(lex, f, lex.Top().Get(f).characters, q, v, u);
    var read := Set(lex, f, slice).Go(ValueIdentifier(f));
    SetKeepsValid(lex, f, slice, WaitNewline);
    if u == "" {
      OutcomeOfNothing(read);
    } else {
      OutcomeFirst(read, u);
      assert !IsIdentifierCharacter(u[0]);
      IdentifierStep(read, f, u[0]);
      if IsWhitespace(u[0]) {
        var waiting := read.Go(WaitNewline);
        BadSemicolonIf(waiting, u, status);
        OutcomeFirst(waiting, u);
        SkipsOver(waiting, u[0]);
      } else {
        OutcomeOfFailure(read, MalformedField, u[1..]);
      }
    }
  }

  lemma IdentifierOrBad(s: string) returns (ok: bool, v: string, w: string, rest: string, status: Status)
    requires s != "" && IsIdentifierCharacter(s[0]) && s[0] != '.'
    ensures if ok then s == v + w + ";" + rest && ValidIdentifier(v) && AllWhitespace(w) else BadIdentifier(s, status)
  {
    hide BadSemicolon;
    var u;
    v, u := Split(c => IsIdentifierCharacter(c), s);
    assert v != "" && v[0] == s[0];
    ok, w, rest, status := false, "", "", FieldMissingNewline;
    if u != "" {
      ok, w, rest, status := SemicolonOrBad(u);
      if !ok && !IsWhitespace(u[0]) {
        assert u[0] != ';' by { SemicolonIsNotBad(u, status); }
        status := MalformedField;
      }
      assert ok ==> s == v + w + ";" + rest;
    }
  }

  lemma SemicolonIsNotBad(s: string, status: Status)
    requires s != "" && BadSemicolon(s, status)
    ensures s[0] != ';'
  {
  }

  lemma TextRuns(lex: Lex, n: nat, q: string, v: string, rest: string) returns (s: Slice)
    requires lex.Valid() && lex.state == WaitValue(Text) && lex.Top().text.characters == n
    requires AllWhitespace(q) && AllTextCharacters(v) && n + |v| <= 255
    ensures s.characters == n + |v| && Set(lex, Text, s).Go(ValueText).Valid()
    ensures Outcome(lex, q + "\"" + v + rest) == Outcome(Set(lex, Text, s).Go(ValueText), rest)
  {
    hide Outcome;
    hide Consume;
    hide Set;
    hide Longer;
    var tail := "\"" + v + rest;
    assert q + "\"" + v + rest == q + tail;
    SkipsAll(lex, q, tail);
    OutcomeFirst(lex, tail);
    WaitTextStep(lex, '\"');
    assert tail[0] == '\"' && tail[1..] == v + rest;
    var first := Slice(lex.position, n);
    SetKeepsValid(lex, Text, first, ValueText);
    CollectsAllText(Set(lex, Text, first).Go(ValueText), v, rest);
    LongerSet(lex, Text, first, |v|, ValueText);
    s := first.(characters := n + |v|);
  }

  lemma TextIf(lex: Lex, n: nat, q: string, v: string, w: string, rest: string) returns (s: Slice)
    requires lex.Valid() && lex.state == WaitValue(Text) && lex.Top().text.characters == n
    requires AllWhitespace(q) && AllTextCharacters(v) && AllWhitespace(w) && 1 <= n + |v| <= 255
    ensures s.characters == n + |v| && Behind(lex, Text, s).Valid()
    ensures Outcome(lex, q + "\"" + v + "\"" + w + ";" + rest) == Outcome(Behind(lex, Text, s), rest)
  {
    hide Outcome;
    hide Consume;
    hide Set;
    var tail := "\"" + w + ";" + rest;
    assert q + "\"" + v + "\"" + w + ";" + rest == q + "\"" + v + tail;
    s := TextRuns(lex, n, q, v, tail);
    var read := Set(lex, Text, s).Go(ValueText);
    SetKeepsValid(lex, Text, s, WaitNewline);
    OutcomeFirst(read, tail);
    TextStep(read, '\"');
    assert tail[0] == '\"' && tail[1..] == w + ";" + rest;
    SemicolonIf(read.Go(WaitNewline), w, rest);
    assert read.Go(WaitNewline).Go(EntryInitial) == Behind(lex, Text, s);
  }

  lemma TextStopsIf(read: Lex, u: string, status: Status)
    requires read.Valid() && read.state == ValueText && TextStops(read.Top().text.characters, u, status)
    requires read.Top().text.characters <= 255
    requires read.Top().text.characters > 0 ==> read.Go(WaitNewline).Valid()
    ensures Outcome(read, u) == status
  {
    hide Outcome;
    hide Consume;
    hide BadSemicolon;
    if u == "" {
      OutcomeOfNothing(read);
    } else {
      OutcomeFirst(read, u);
      TextStep(read, u[0]);
      if u[0] == '\"' && read.Top().text.characters > 0 {
        BadSemicolonIf(read.Go(WaitNewline), u[1..], status);
      } else {
        OutcomeOfFailure(read, status, u[1..]);
      }
    }
  }

  lemma BadTextIf(lex: Lex, q: string, s: string, status: Status)
    requires lex.Valid() && lex.state == WaitValue(Text) && AllWhitespace(q)
    requires BadText(s, lex.Top().text.characters, status)
    ensures Outcome(lex, q + "\"" + s) == status
  {
    hide Outcome;
    hide Consume;
    hide Set;
    hide TextStops;
    var n := lex.Top().text.characters;
    var v, u :| s == v + u && AllTextCharacters(v) && n + |v| <= 255 && TextStops(n + |v|, u, status);
    assert q + "\"" + s == q + "\"" + v + u;
    var slice := TextRuns(lex, n, q, v, u);
    SetKeepsValid(lex, Text, slice, WaitNewline);
    SetTop(lex, slice);
    TextStopsIf(Set(lex, Text, slice).Go(ValueText), u, status);
  }

  lemma SetTop(lex: Lex, s: Slice)
    requires lex.Valid() && lex.state == WaitValue(Text)
    ensures var read := Set(lex, Text, s).Go(ValueText);
            && read.state == ValueText && read.entries != [] && read.Top().text.characters == s.characters
            && read.Go(WaitNewline) == Set(lex, Text, s).Go(WaitNewline)
  {
  }

  lemma TextOrBad(s: string, n: nat) returns (ok: bool, v: string, w: string, rest: string, status: Status)
    requires n <= 255
    ensures if ok then s == v + "\"" + w + ";" + rest && AllTextCharacters(v) && AllWhitespace(w) && 1 <= n + |v| <= 255
            else BadText(s, n, status)
  {
    hide BadSemicolon;
    var u;
    v, u := SplitText(s, 255 - n);
    ok, w, rest, status := false, "", "", EntryUnterminated;
    if u != "" {
      if u[0] == '\"' {
        if n + |v| == 0 {
          status := ValueEmpty;
        } else {
          ok, w, rest, status := SemicolonOrBad(u[1..]);
          assert u == "\"" + u[1..];
          assert ok ==> s == v + "\"" + w + ";" + rest;
        }
      } else {
        status := if IsTextCharacter(u[0]) then ValueTooLong else ValueBadCharacter;
      }
    }
    assert s == v + u;
  }

  lemma {:induction false} SplitText(s: string, room: nat) returns (a: string, b: string)
    ensures s == a + b && AllTextCharacters(a) && |a| <= room
    ensures b != "" && IsTextCharacter(b[0]) ==> |a| == room
    decreases room
  {
    if s == "" || room == 0 || !IsTextCharacter(s[0]) {
      a, b := "", s;
    } else {
      a, b := SplitText(s[1..], room - 1);
      a := [s[0]] + a;
    }
  }

  /** What may stand between the separator and the next field. */
  ghost predicate ValidValueText(f: Field, n: nat, q: string, v: string, w: string) {
    && AllWhitespace(w)
    && if f == Text then AllWhitespace(q) && AllTextCharacters(v) && 1 <= n + |v| <= 255
       else PassedOver(q) && ValidIdentifier(v)
  }

  lemma ValueIf(lex: Lex, f: Field, n: nat, q: string, v: string, w: string, rest: string) returns (s: Slice)
    requires lex.Valid() && lex.state == WaitValue(f) && lex.Top().Get(f).characters == n
    requires ValidValueText(f, n, q, v, w)
    ensures s.characters == n + |v| && Behind(lex, f, s).Valid()
    ensures Outcome(lex, q + Quoted(f, v) + w + ";" + rest) == Outcome(Behind(lex, f, s), rest)
  {
    hide Outcome;
    hide Behind;
    if f == Text {
      s := TextIf(lex, n, q, v, w, rest);
      assert q + Quoted(f, v) + w + ";" + rest == q + "\"" + v + "\"" + w + ";" + rest;
    } else {
      s := IdentifierIf(lex, f, n, q, v, w, rest);
    }
  }

  lemma BadValueIf(lex: Lex, f: Field, s: string, characters: nat, status: Status)
    requires lex.Valid() && lex.state == WaitValue(f) && lex.Top().text.characters == characters
    requires BadValue(f, s, characters, status)
    ensures Outcome(lex, s) == status
  {
    hide Outcome;
    hide Consume;
    hide BadIdentifier;
    hide BadText;
    var q, u :|
      && s == q + u && (if f == Text then AllWhitespace(q) else PassedOver(q))
      && if u == "" then status == FieldMissingValue
         else if u[0] in {'{', '}', '/', '*', '.'} then status == MalformedField
         else if u[0] == ';' then status == FieldMissingValue
         else if f != Text then BadIdentifier(u, status)
         else if u[0] == '\"' then BadText(u[1..], characters, status)
         else !IsWhitespace(u[0]) && status == if u[0] == '=' then MalformedField else FieldIncorrectTypeText;
    if f == Text {
      if u != "" && u[0] == '\"' {
        assert s == q + "\"" + u[1..];
        BadTextIf(lex, q, u[1..], status);
      } else {
        SkipsAll(lex, q, u);
        if u == "" { OutcomeOfNothing(lex); } else {
          OutcomeFirst(lex, u);
          NotSpace(u[0]);
          WaitTextStep(lex, u[0]);
          OutcomeOfFailure(lex, status, u[1..]);
        }
      }
    } else if u != "" && u[0] !in {'{', '}', '/', '*', '.', ';'} {
      BadIdentifierIf(lex, f, q, u, status);
    } else {
      hide Set;
      var moved := PassesAll(lex, f, q, u);
      var passed := Set(lex, f, moved);
      SetKeepsValid(lex, f, moved, lex.state);
      if u == "" { OutcomeOfNothing(passed); } else {
        OutcomeFirst(passed, u);
        NotSpace(u[0]);
        WaitStep(passed, f, u[0]);
        OutcomeOfFailure(passed, status, u[1..]);
      }
    }
  }

  lemma NotSpace(c: char)
    ensures c in {'{', '}', '/', '*', '.', ';', '=', '\"'} ==> !IsWhitespace(c)
  {
  }

  lemma ValueOrBad(f: Field, s: string, n: nat, characters: nat)
    returns (ok: bool, q: string, v: string, w: string, rest: string, status: Status)
    requires f == Text ==> n == characters <= 255
    ensures if ok then s == q + Quoted(f, v) + w + ";" + rest && ValidValueText(f, n, q, v, w)
            else BadValue(f, s, characters, status)
  {
    hide BadIdentifier;
    hide BadText;
    var u;
    if f == Text {
      q, u := Split(c => IsWhitespace(c), s);
    } else {
      q, u := Split(c => IsWhitespace(c) || c == '\"', s);
    }
    ok, v, w, rest, status := false, "", "", "", FieldMissingValue;
    if u != "" && u[0] !in {'{', '}', '/', '*', '.', ';'} {
      if f != Text {
        assert IsIdentifierCharacter(u[0]);
        ok, v, w, rest, status := IdentifierOrBad(u);
        assert ok ==> s == q + v + w + ";" + rest;
      } else if u[0] == '\"' {
        ok, v, w, rest, status := TextOrBad(u[1..], n);
        assert u == "\"" + u[1..];
        assert ok ==> s == q + ("\"" + (v + "\"")) + w + ";" + rest;
      } else {
        status := if u[0] == '=' then MalformedField else FieldIncorrectTypeText;
      }
    } else if u != "" && u[0] != ';' {
      status := MalformedField;
    }
    assert s == q + u;
  }

  // ----- Fields -----

  lemma SelectsIff(name: string, f: Field)
    ensures Selects(name, f) <==> HashFrom(0, name) == HashOf(f)
  {
    hide *;
    SelectsMeans(name, f);
    SameHashIff(name, NameOf(f));
    NamesReachTheirCases(f);
  }

  lemma SelectsMeans(name: string, f: Field)
    ensures Selects(name, f) <==> SameColumns(name, NameOf(f))
  {
  }

  /** Behind a name that selects a field, whitespace and the separator lead to its value. */
  lemma NameIf(lex: Lex, name: string, w: string, f: Field, rest: string)
    requires lex.Valid() && lex.state == EntryIdentifier(0) && AllNameCharacters(name) && AllWhitespace(w)
    requires Selects(name, f)
    ensures Outcome(lex, name + w + "=" + rest) == Outcome(lex.Go(WaitValue(f)), rest)
  {
    hide Outcome;
    hide Consume;
    hide Selects;
    var tail := w + ("=" + rest);
    SelectsIff(name, f);
    assert name + w + "=" + rest == name + tail;
    DigestsAll(lex, name, tail);
    var named := lex.Go(EntryIdentifier(HashFrom(0, name)));
    OutcomeFirst(named, tail);
    NoNameCharacter(tail[0]);
    NameStep(named, tail[0]);
    assert named.Go(WaitValue(f)) == lex.Go(WaitValue(f)) && named.Go(WaitSeparator(f)) == lex.Go(WaitSeparator(f));
    if w == "" {
      assert tail[0] == '=' && tail[1..] == rest;
    } else {
      assert tail[0] == w[0] && tail[1..] == w[1..] + ("=" + rest) && ("=" + rest)[1..] == rest;
      var waiting := lex.Go(WaitSeparator(f));
      SkipsAll(waiting, w[1..], "=" + rest);
      OutcomeFirst(waiting, "=" + rest);
      SeparatorStep(waiting, f, '=');
      assert waiting.Go(WaitValue(f)) == lex.Go(WaitValue(f));
    }
  }

  lemma NoNameCharacter(c: char)
    ensures IsWhitespace(c) || c == '=' ==> !IsNameCharacter(c)
    ensures c == '=' ==> !IsWhitespace(c)
  {
  }

  lemma BadFieldIf(lex: Lex, s: string, status: Status)
    requires lex.Valid() && lex.state == EntryIdentifier(0) && lex.entries != []
    requires BadField(s, lex.Top().text.characters, status)
    ensures Outcome(lex, s) == status
  {
    hide Outcome;
    hide Consume;
    hide Selects;
    hide BadSeparator;
    var characters := lex.Top().text.characters;
    var name, t :|
      && s == name + t && AllNameCharacters(name)
      && if t == "" then status == FieldMissingSeparator
         else if IsWhitespace(t[0]) || t[0] == '=' then
           || ((forall f: Field :: !Selects(name, f)) && status == UnknownField)
           || (exists f: Field :: Selects(name, f) && BadSeparator(f, t, characters, status))
         else !IsNameCharacter(t[0]) && status == if t[0] == ';' then FieldMissingSeparator else MalformedField;
    DigestsAll(lex, name, t);
    var named := lex.Go(EntryIdentifier(HashFrom(0, name)));
    if t == "" {
      OutcomeOfNothing(named);
    } else if f: Field :| (IsWhitespace(t[0]) || t[0] == '=') && Selects(name, f)
                          && BadSeparator(f, t, characters, status) {
      BadSeparatorIf(lex, name, f, t, status);
    } else {
      OutcomeFirst(named, t);
      NoNameCharacter(t[0]);
      NameStep(named, t[0]);
      forall f: Field ensures Selects(name, f) <==> HashFrom(0, name) == HashOf(f) { SelectsIff(name, f); }
      OutcomeOfFailure(named, status, t[1..]);
    }
  }

  lemma BadSeparatorIf(lex: Lex, name: string, f: Field, t: string, status: Status)
    requires lex.Valid() && lex.state == EntryIdentifier(0) && lex.entries != [] && AllNameCharacters(name)
    requires Selects(name, f) && BadSeparator(f, t, lex.Top().text.characters, status)
    ensures Outcome(lex, name + t) == status
  {
    hide Outcome;
    hide Consume;
    hide Selects;
    hide BadValue;
    var characters := lex.Top().text.characters;
    var w, u :|
      && t == w + u && AllWhitespace(w)
      && if u == "" then w != "" && status == FieldMissingSeparator
         else if u[0] == '=' then BadValue(f, u[1..], characters, status)
         else w != "" && !IsWhitespace(u[0]) && status == FieldMissingSeparator;
    if u != "" && u[0] == '=' {
      assert name + t == name + w + "=" + u[1..];
      NameIf(lex, name, w, f, u[1..]);
      BadValueIf(lex.Go(WaitValue(f)), f, u[1..], characters, status);
    } else {
      SelectsIff(name, f);
      DigestsAll(lex, name, t);
      var named := lex.Go(EntryIdentifier(HashFrom(0, name)));
      OutcomeFirst(named, t);
      assert t[0] == w[0] && t[1..] == w[1..] + u;
      NoNameCharacter(t[0]);
      NameStep(named, t[0]);
      var waiting := lex.Go(WaitSeparator(f));
      assert named.Go(WaitSeparator(f)) == waiting;
      SkipsAll(waiting, w[1..], u);
      if u == "" { OutcomeOfNothing(waiting); } else {
        OutcomeFirst(waiting, u);
        SeparatorStep(waiting, f, u[0]);
        OutcomeOfFailure(waiting, FieldMissingSeparator, u[1..]);
      }
    }
  }

  /** Behind the dot there is a field, or the file fails there. */
  lemma FieldOrBad(s: string, characters: nat) returns (ok: bool, f: FieldText, rest: string, status: Status)
    requires s != "" && s[0] == '.' && characters <= 255
    ensures if ok then f.Valid(characters) && s == f.Render() + rest
            else BadField(s[1..], characters, status)
  {
    hide Selects;
    hide BadSeparator;
    var name, t := Split(c => IsNameCharacter(c), s[1..]);
    f, rest := FieldText(Data, name, "", "", "", ""), "";
    ok, status := false, FieldMissingSeparator;
    assert s[1..] == name + t;
    if t != "" {
      if IsWhitespace(t[0]) || t[0] == '=' {
        if g: Field :| Selects(name, g) {
          ok, f, rest, status := SeparatorOrBad(g, name, t, characters);
          assert s == ['.'] + s[1..];
          assert ok ==> s == f.Render() + rest;
        } else {
          status := UnknownField;
        }
      } else {
        status := if t[0] == ';' then FieldMissingSeparator else MalformedField;
      }
    }
  }

  lemma SeparatorOrBad(g: Field, name: string, t: string, characters: nat)
    returns (ok: bool, f: FieldText, rest: string, status: Status)
    requires AllNameCharacters(name) && Selects(name, g) && t != "" && (IsWhitespace(t[0]) || t[0] == '=')
    requires characters <= 255
    ensures if ok then f.Valid(characters) && ['.'] + (name + t) == f.Render() + rest
            else BadSeparator(g, t, characters, status)
  {
    hide Selects;
    hide BadValue;
    var w, u := Split(c => IsWhitespace(c), t);
    f, rest := FieldText(g, name, w, "", "", ""), "";
    ok, status := false, FieldMissingSeparator;
    assert t == w + u;
    if u != "" && u[0] == '=' {
      var q, v, w2;
      ok, q, v, w2, rest, status := ValueOrBad(g, u[1..], if g == Text then characters else 0, characters);
      f := FieldText(g, name, w, q, v, w2);
      if ok {
        RenderSplits(f, rest);
        assert u == "=" + u[1..];
        assert name + t == name + w + "=" + u[1..];
      }
    }
  }

  lemma RenderSplits(f: FieldText, rest: string)
    ensures f.Render() + rest
         == ['.'] + (f.name + f.beforeEquals + "="
                     + (f.beforeValue + Quoted(f.field, f.value) + f.beforeSemicolon + ";" + rest))
  {
    var value := f.beforeValue + Quoted(f.field, f.value) + f.beforeSemicolon + ";" + rest;
    assert f.Render() + rest == "." + f.name + f.beforeEquals + "=" + value;
  }

  function GivenOf(lex: Lex): Given
    requires lex.entries != []
  {
    Given(lex.Top().data.characters > 0, lex.Top().length.characters > 0, lex.Top().text.characters)
  }

  /** The machine behind a field: the entry has been given it, and nothing else has changed. */
  ghost predicate HasGiven(lex: Lex, lex': Lex, f: FieldText) {
    && lex'.Valid() && lex'.state == EntryInitial && lex.entries != []
    && lex'.capacity == lex.capacity && |lex'.entries| == |lex.entries|
    && GivenOf(lex') == GivenOf(lex).With(f)
  }

  lemma BehindHasGiven(lex: Lex, f: FieldText, s: Slice)
    requires lex.Valid() && lex.entries != [] && s.characters == lex.Top().Get(f.field).characters + |f.value|
    requires f.field != Text ==> |f.value| > 0
    ensures HasGiven(lex, Behind(lex, f.field, s), f)
  {
  }

  lemma FieldIf(lex: Lex, f: FieldText, rest: string) returns (lex': Lex)
    requires lex.Valid() && lex.state == EntryInitial && f.Valid(lex.Top().text.characters)
    ensures HasGiven(lex, lex', f) && Outcome(lex, f.Render() + rest) == Outcome(lex', rest)
  {
    hide Outcome;
    hide Consume;
    hide Behind;
    hide Selects;
    RenderSplits(f, rest);
    var n := lex.Top().Get(f.field).characters;
    var value := f.beforeValue + Quoted(f.field, f.value) + f.beforeSemicolon + ";" + rest;
    var s, named := f.Render() + rest, lex.Go(EntryIdentifier(0));
    assert s[0] == '.' && s[1..] == f.name + f.beforeEquals + "=" + value;
    OutcomeFirst(lex, s);
    NotSpace('.');
    EntryStep(lex, '.');
    NameIf(named, f.name, f.beforeEquals, f.field, value);
    var waiting := named.Go(WaitValue(f.field));
    var slice := ValueIf(waiting, f.field, n, f.beforeValue, f.value, f.beforeSemicolon, rest);
    lex' := Behind(waiting, f.field, slice);
    BehindFrom(lex, f.field, slice);
    BehindHasGiven(lex, f, slice);
  }

  lemma BehindFrom(lex: Lex, f: Field, s: Slice)
    requires lex.entries != []
    ensures Behind(lex.Go(EntryIdentifier(0)).Go(WaitValue(f)), f, s) == Behind(lex, f, s)
  {
  }

  // ----- Entries and files -----

  /** Pushing keeps what is needed to know how the next push goes. */
  lemma PushFollows(lex: Lex)
    requires lex.Valid() && lex.state == Initial && CapacityFollows(lex)
    ensures var r := PushEntry(lex);
            && r.Valid() && CapacityFollows(r)
            && if |lex.entries| < MAX_ENTRIES then
                 r.state == EntryInitial && |r.entries| == |lex.entries| + 1 && GivenOf(r) == NOTHING_GIVEN
               else r.state == Initial && |r.entries| == |lex.entries|
  {
    hide CapacityAfter;
    PushWorksIff(lex);
  }

  ghost predicate Ready(lex: Lex) {
    && lex.Valid() && CapacityFollows(lex)
    && (lex.state == Initial || (lex.state == EntryInitial && lex.Top().text.characters <= 255))
  }

  lemma ReadyMeans(lex: Lex)
    requires Ready(lex)
    ensures lex.Valid() && (lex.state == Initial || lex.state == EntryInitial)
    ensures lex.state == EntryInitial ==> lex.entries != []
  {
  }

  lemma GivenStaysReady(lex: Lex, lex': Lex, f: FieldText)
    requires Ready(lex) && lex.state == EntryInitial && HasGiven(lex, lex', f) && f.Valid(lex.Top().text.characters)
    ensures Ready(lex')
  {
    hide CapacityAfter;
    hide Selects;
  }

  lemma OpeningStaysReady(lex: Lex)
    requires Ready(lex) && lex.state == Initial
    ensures Ready(PushEntry(lex))
  {
    hide CapacityAfter;
    PushFollows(lex);
  }

  lemma CompleteIff(lex: Lex)
    requires lex.entries != []
    ensures lex.Top().Complete() <==> GivenOf(lex).Complete()
  {
  }

  /** What the grammars say about the rest of a file, for the state of the machine. */
  ghost predicate Derives(lex: Lex, s: string, status: Status)
    requires lex.entries == [] ==> lex.state == Initial
  {
    if lex.state == Initial then
      if status == Ok then File(s, |lex.entries|) else FileFails(s, |lex.entries|, status)
    else
      if status == Ok then Fields(s, |lex.entries| - 1, GivenOf(lex))
      else FieldsFail(s, |lex.entries| - 1, GivenOf(lex), status)
  }

  lemma InitialGoes(lex: Lex, s: string)
    requires Ready(lex) && lex.state == Initial
    ensures lex.Valid() && PushEntry(lex).Valid()
    ensures s == "" ==> Outcome(lex, s) == if lex.entries == [] then EmptyFile else Ok
    ensures s != "" && IsWhitespace(s[0]) ==> Outcome(lex, s) == Outcome(lex, s[1..])
    ensures s != "" && s[0] == '{' ==> Outcome(lex, s) == Outcome(PushEntry(lex), s[1..])
    ensures s != "" && !IsWhitespace(s[0]) && s[0] !in {'{', '/'} ==>
              Outcome(lex, s) == if s[0] == '*' then CommentEndUnmatched else EntryMalformed
  {
    hide Outcome;
    hide Consume;
    hide PushEntry;
    hide CapacityFollows;
    OpeningStaysReady(lex);
    if s == "" {
      OutcomeOfNothing(lex);
    } else {
      OutcomeFirst(lex, s);
      InitialStep(lex, s[0]);
      NotSpace(s[0]);
      OutcomeOfFailure(lex, if s[0] == '*' then CommentEndUnmatched else EntryMalformed, s[1..]);
    }
  }

  lemma EntryGoes(lex: Lex, s: string)
    requires Ready(lex) && lex.state == EntryInitial
    ensures lex.Valid() && lex.Go(Initial).Valid()
    ensures s == "" ==> Outcome(lex, s) == EntryUnterminated
    ensures s != "" && IsWhitespace(s[0]) ==> Outcome(lex, s) == Outcome(lex, s[1..])
    ensures s != "" && s[0] == '}' && GivenOf(lex).Complete() ==> Outcome(lex, s) == Outcome(lex.Go(Initial), s[1..])
    ensures s != "" && s[0] == '}' && !GivenOf(lex).Complete() ==> Outcome(lex, s) == MissingRequiredField
    ensures s != "" && s[0] == '.' ==> Outcome(lex, s) == Outcome(lex.Go(EntryIdentifier(0)), s[1..])
    ensures s != "" && !IsWhitespace(s[0]) && s[0] !in {'}', '/', '.'} ==>
              Outcome(lex, s) == if s[0] == '*' then CommentEndUnmatched
                                 else if s[0] in {'=', ';'} then FieldMissingIdentifier else MalformedField
  {
    hide Outcome;
    hide Consume;
    hide CapacityFollows;
    if s == "" {
      OutcomeOfNothing(lex);
    } else {
      OutcomeFirst(lex, s);
      EntryStep(lex, s[0]);
      NotSpace(s[0]);
      CompleteIff(lex);
      OutcomeOfFailure(lex, if s[0] == '}' then MissingRequiredField else if s[0] == '*' then CommentEndUnmatched
                            else if s[0] in {'=', ';'} then FieldMissingIdentifier else MalformedField, s[1..]);
    }
  }

  /** What the next entry or the rest of the file is read with. */
  lemma NextReady(lex: Lex)
    requires Ready(lex)
    ensures lex.state == Initial ==>
              && Ready(PushEntry(lex))
              && if |lex.entries| < MAX_ENTRIES then
                   PushEntry(lex).state == EntryInitial && |PushEntry(lex).entries| == |lex.entries| + 1
                   && GivenOf(PushEntry(lex)) == NOTHING_GIVEN
                 else PushEntry(lex).state == Initial && |PushEntry(lex).entries| == |lex.entries|
    ensures lex.state == EntryInitial ==> Ready(lex.Go(Initial))
  {
    hide CapacityAfter;
    if lex.state == Initial {
      PushFollows(lex);
    }
  }

  // Every outcome has a derivation.

  lemma {:induction false} OutcomeIsDerived(lex: Lex, s: string)
    requires Ready(lex)
    ensures lex.Valid() && (lex.entries == [] ==> lex.state == Initial)
    ensures Derives(lex, s, Outcome(lex, s))
    decreases |s|, 2
  {
    ReadyMeans(lex);
    hide *;
    if lex.state == Initial {
      FileIsDerived(lex, s);
    } else {
      FieldsAreDerived(lex, s);
    }
  }

  lemma {:induction false} FileIsDerived(lex: Lex, s: string)
    requires Ready(lex) && lex.state == Initial
    ensures lex.Valid() && Derives(lex, s, Outcome(lex, s))
    decreases |s|, 0
  {
    hide Outcome;
    hide Consume;
    hide Fields;
    hide FieldsFail;
    hide Ready;
    hide PushEntry;
    hide BeginsWithComment;
    hide BadComment;
    ReadyMeans(lex);
    InitialGoes(lex, s);
    NextReady(lex);
    if s == "" {
    } else if IsWhitespace(s[0]) {
      OutcomeIsDerived(lex, s[1..]);
    } else if s[0] == '/' {
      var ok, rest, status := CommentOrBad(s);
      if ok {
        CommentIf(lex, false, s, rest);
        OutcomeIsDerived(lex, rest);
      } else {
        BadCommentIf(lex, false, s, status);
        BadCommentIsBad(s, status);
      }
    } else if s[0] == '{' {
      OutcomeIsDerived(PushEntry(lex), s[1..]);
    }
  }

  lemma BadCommentIsBad(s: string, status: Status)
    requires BadComment(s, status)
    ensures status != Ok
  {
  }

  lemma {:induction false} FieldsAreDerived(lex: Lex, s: string)
    requires Ready(lex) && lex.state == EntryInitial
    ensures lex.Valid() && lex.entries != [] && Derives(lex, s, Outcome(lex, s))
    decreases |s|, 1
  {
    hide Outcome;
    hide Consume;
    hide File;
    hide FileFails;
    hide Ready;
    hide BeginsWithComment;
    hide BadComment;
    hide BadField;
    ReadyMeans(lex);
    EntryGoes(lex, s);
    NextReady(lex);
    if s == "" {
    } else if IsWhitespace(s[0]) {
      OutcomeIsDerived(lex, s[1..]);
    } else if s[0] == '/' {
      var ok, rest, status := CommentOrBad(s);
      if ok {
        CommentIf(lex, true, s, rest);
        OutcomeIsDerived(lex, rest);
      } else {
        BadCommentIf(lex, true, s, status);
        BadCommentIsBad(s, status);
      }
    } else if s[0] == '}' {
      if GivenOf(lex).Complete() {
        OutcomeIsDerived(lex.Go(Initial), s[1..]);
      }
    } else if s[0] == '.' {
      FieldIsDerived(lex, s);
    }
  }

  lemma {:induction false} FieldIsDerived(lex: Lex, s: string)
    requires Ready(lex) && lex.state == EntryInitial && s != "" && s[0] == '.'
    ensures lex.Valid() && lex.entries != [] && Derives(lex, s, Outcome(lex, s))
    decreases |s|, 0
  {
    hide Outcome;
    hide Consume;
    hide File;
    hide FileFails;
    hide BeginsWithComment;
    hide BadComment;
    hide BadField;
    hide CapacityFollows;
    ReadyMeans(lex);
    EntryGoes(lex, s);
    var ok, f, rest, status := FieldOrBad(s, lex.Top().text.characters);
    if ok {
      var lex' := FieldIf(lex, f, rest);
      GivenStaysReady(lex, lex', f);
      OutcomeIsDerived(lex', rest);
      Begins(s, f.Render(), rest);
    } else {
      BadFieldIf(lex.Go(EntryIdentifier(0)), s[1..], status);
      BadFieldIsBad(s[1..], lex.Top().text.characters, status);
    }
  }

  lemma Begins(s: string, t: string, rest: string)
    requires s == t + rest
    ensures t <= s && s[|t|..] == rest
  {
  }

  lemma BadFieldIsBad(s: string, characters: nat, status: Status)
    requires BadField(s, characters, status)
    ensures status != Ok
  {
    hide Selects;
  }

  // Every derivation is the outcome.

  lemma {:induction false} DerivedIsOutcome(lex: Lex, s: string, status: Status)
    requires Ready(lex) && (lex.entries == [] ==> lex.state == Initial) && Derives(lex, s, status)
    ensures lex.Valid() && Outcome(lex, s) == status
    decreases |s|, 1
  {
    ReadyMeans(lex);
    hide Ready;
    hide Outcome;
    if lex.state == Initial {
      if status == Ok { FileIf(lex, s); } else { FileFailsIf(lex, s, status); }
    } else {
      if status == Ok { FieldsIf(lex, s); } else { FieldsFailIf(lex, s, status); }
    }
  }

  lemma {:induction false} FileIf(lex: Lex, s: string)
    requires Ready(lex) && lex.state == Initial && File(s, |lex.entries|)
    ensures lex.Valid() && Outcome(lex, s) == Ok
    decreases |s|, 0
  {
    hide Outcome;
    hide Consume;
    hide Fields;
    hide FileFails;
    hide FieldsFail;
    hide Ready;
    hide PushEntry;
    hide BeginsWithComment;
    ReadyMeans(lex);
    InitialGoes(lex, s);
    NextReady(lex);
    if s != "" && IsWhitespace(s[0]) && File(s[1..], |lex.entries|) {
      DerivedIsOutcome(lex, s[1..], Ok);
    } else if rest: string :| BeginsWithComment(s, rest) && |rest| < |s| && File(rest, |lex.entries|) {
      CommentIf(lex, false, s, rest);
      DerivedIsOutcome(lex, rest, Ok);
    } else if s != "" {
      DerivedIsOutcome(PushEntry(lex), s[1..], Ok);
    }
  }

  lemma {:induction false} FileFailsIf(lex: Lex, s: string, status: Status)
    requires Ready(lex) && lex.state == Initial && FileFails(s, |lex.entries|, status) && status != Ok
    ensures lex.Valid() && Outcome(lex, s) == status
    decreases |s|, 0
  {
    hide Outcome;
    hide Consume;
    hide Fields;
    hide File;
    hide FieldsFail;
    hide Ready;
    hide PushEntry;
    hide BeginsWithComment;
    hide BadComment;
    ReadyMeans(lex);
    InitialGoes(lex, s);
    NextReady(lex);
    if s != "" && IsWhitespace(s[0]) && FileFails(s[1..], |lex.entries|, status) {
      DerivedIsOutcome(lex, s[1..], status);
    } else if rest: string :| BeginsWithComment(s, rest) && |rest| < |s| && FileFails(rest, |lex.entries|, status) {
      CommentIf(lex, false, s, rest);
      DerivedIsOutcome(lex, rest, status);
    } else if s != "" && s[0] == '/' {
      BadCommentIf(lex, false, s, status);
    } else if s != "" && s[0] == '{' {
      DerivedIsOutcome(PushEntry(lex), s[1..], status);
    }
  }

  /** How the rest of an entry begins. */
  datatype Begin = Blank | Remark(rest: string) | OneField(f: FieldText) | Close | Broken

  ghost predicate BeginsAs(b: Begin, s: string, n: nat, given: Given) {
    match b
    case Blank => s != "" && IsWhitespace(s[0]) && Fields(s[1..], n, given)
    case Remark(rest) => BeginsWithComment(s, rest) && |rest| < |s| && Fields(rest, n, given)
    case OneField(f) =>
      f.Valid(given.characters) && f.Render() <= s && Fields(s[|f.Render()|..], n, given.With(f))
    case Close => s != "" && s[0] == '}' && given.Complete() && File(s[1..], n + 1)
    case Broken => false
  }

  ghost predicate FailsAs(b: Begin, s: string, n: nat, given: Given, status: Status) {
    match b
    case Blank => s != "" && IsWhitespace(s[0]) && FieldsFail(s[1..], n, given, status)
    case Remark(rest) => BeginsWithComment(s, rest) && |rest| < |s| && FieldsFail(rest, n, given, status)
    case OneField(f) =>
      f.Valid(given.characters) && f.Render() <= s && FieldsFail(s[|f.Render()|..], n, given.With(f), status)
    case Close => s != "" && s[0] == '}' && given.Complete() && FileFails(s[1..], n + 1, status)
    case Broken => BadBetweenFields(s, given, status)
  }

  lemma FieldsBegin(s: string, n: nat, given: Given) returns (b: Begin)
    requires Fields(s, n, given)
    ensures BeginsAs(b, s, n, given)
  {
    hide File;
    hide BeginsWithComment;
    hide IsWhitespace;
    hide FieldText.Valid;
    hide FieldText.Render;
    hide Given.With;
    hide Given.Complete;
    if s != "" && IsWhitespace(s[0]) && Fields(s[1..], n, given) {
      b := Blank;
    } else if rest: string :| BeginsWithComment(s, rest) && |rest| < |s| && Fields(rest, n, given) {
      b := Remark(rest);
    } else if f: FieldText :|
      f.Valid(given.characters) && f.Render() <= s && Fields(s[|f.Render()|..], n, given.With(f)) {
      b := OneField(f);
    } else {
      b := Close;
    }
  }

  lemma FieldsFailBegin(s: string, n: nat, given: Given, status: Status) returns (b: Begin)
    requires FieldsFail(s, n, given, status)
    ensures FailsAs(b, s, n, given, status)
  {
    hide FileFails;
    hide BeginsWithComment;
    hide BadBetweenFields;
    hide IsWhitespace;
    hide FieldText.Valid;
    hide FieldText.Render;
    hide Given.With;
    hide Given.Complete;
    if BadBetweenFields(s, given, status) {
      b := Broken;
    } else if s != "" && IsWhitespace(s[0]) && FieldsFail(s[1..], n, given, status) {
      b := Blank;
    } else if rest: string :| BeginsWithComment(s, rest) && |rest| < |s| && FieldsFail(rest, n, given, status) {
      b := Remark(rest);
    } else if f: FieldText :|
      f.Valid(given.characters) && f.Render() <= s && FieldsFail(s[|f.Render()|..], n, given.With(f), status) {
      b := OneField(f);
    } else {
      b := Close;
    }
  }

  lemma {:induction false} FieldsIf(lex: Lex, s: string)
    requires Ready(lex) && lex.state == EntryInitial && lex.entries != [] && Fields(s, |lex.entries| - 1, GivenOf(lex))
    ensures lex.Valid() && Outcome(lex, s) == Ok
    decreases |s|, 0
  {
    hide Outcome;
    hide Consume;
    hide File;
    hide FileFails;
    hide Fields;
    hide FieldsFail;
    hide Ready;
    hide BeginsWithComment;
    hide Selects;
    ReadyMeans(lex);
    EntryGoes(lex, s);
    NextReady(lex);
    var b := FieldsBegin(s, |lex.entries| - 1, GivenOf(lex));
    match b
    case Blank => DerivedIsOutcome(lex, s[1..], Ok);
    case Remark(rest) =>
      CommentIf(lex, true, s, rest);
      DerivedIsOutcome(lex, rest, Ok);
    case OneField(f) =>
      var lex' := FieldGoes(lex, f, s);
      DerivedIsOutcome(lex', s[|f.Render()|..], Ok);
    case Close => DerivedIsOutcome(lex.Go(Initial), s[1..], Ok);
    case Broken =>
  }

  lemma FieldGoes(lex: Lex, f: FieldText, s: string) returns (lex': Lex)
    requires Ready(lex) && lex.state == EntryInitial && lex.entries != [] && f.Valid(GivenOf(lex).characters)
    requires f.Render() <= s
    ensures Ready(lex') && lex'.state == EntryInitial && |lex'.entries| == |lex.entries|
    ensures GivenOf(lex') == GivenOf(lex).With(f)
    ensures lex.Valid() && lex'.Valid() && Outcome(lex, s) == Outcome(lex', s[|f.Render()|..])
  {
    hide Outcome;
    hide CapacityFollows;
    var rest := s[|f.Render()|..];
    assert s == f.Render() + rest;
    lex' := FieldIf(lex, f, rest);
    GivenStaysReady(lex, lex', f);
  }

  lemma {:induction false} FieldsFailIf(lex: Lex, s: string, status: Status)
    requires Ready(lex) && lex.state == EntryInitial && lex.entries != [] && status != Ok
    requires FieldsFail(s, |lex.entries| - 1, GivenOf(lex), status)
    ensures lex.Valid() && Outcome(lex, s) == status
    decreases |s|, 0
  {
    hide Outcome;
    hide Consume;
    hide File;
    hide FileFails;
    hide Fields;
    hide FieldsFail;
    hide Ready;
    hide BeginsWithComment;
    hide BadBetweenFields;
    hide Selects;
    ReadyMeans(lex);
    EntryGoes(lex, s);
    NextReady(lex);
    var b := FieldsFailBegin(s, |lex.entries| - 1, GivenOf(lex), status);
    match b
    case Blank => DerivedIsOutcome(lex, s[1..], status);
    case Remark(rest) =>
      CommentIf(lex, true, s, rest);
      DerivedIsOutcome(lex, rest, status);
    case OneField(f) =>
      var lex' := FieldGoes(lex, f, s);
      DerivedIsOutcome(lex', s[|f.Render()|..], status);
    case Close => DerivedIsOutcome(lex.Go(Initial), s[1..], status);
    case Broken => BadBetweenFieldsIf(lex, s, status);
  }

  lemma BadBetweenFieldsIf(lex: Lex, s: string, status: Status)
    requires Ready(lex) && lex.state == EntryInitial && lex.entries != []
    requires BadBetweenFields(s, GivenOf(lex), status)
    ensures lex.Valid() && Outcome(lex, s) == status
  {
    hide Outcome;
    hide BadComment;
    hide BadField;
    hide CapacityFollows;
    EntryGoes(lex, s);
    if s != "" && s[0] == '/' {
      BadCommentIf(lex, true, s, status);
    } else if s != "" && s[0] == '.' {
      BadFieldIf(lex.Go(EntryIdentifier(0)), s[1..], status);
    }
  }

  // ----- Main results -----

  lemma StartIsReady()
    ensures Ready(START)
  {
  }

  lemma ParseIsOutcome(raw: string)
    ensures Parse(raw).state == Exited(Outcome(START, Stripped(raw)))
  {
    hide Feed;
    hide Finish;
    assert raw[0..] == raw;
    FinishIsFeed(raw, START, START);
  }

  /** A file is accepted exactly when it is one of the grammar, newlines apart. */
  lemma ParseAcceptsIff(raw: string)
    ensures Parse(raw).state == Exited(Ok) <==> File(Stripped(raw), 0)
  {
    hide File;
    hide FileFails;
    hide Outcome;
    hide Parse;
    var s := Stripped(raw);
    ParseIsOutcome(raw);
    StartIsReady();
    OutcomeIsDerived(START, s);
    if File(s, 0) {
      DerivedIsOutcome(START, s, Ok);
    }
  }

  /** A file is rejected with a status exactly when it leaves the grammar in the place for that status. */
  lemma ParseRejectsIff(raw: string, status: Status)
    requires status != Ok
    ensures Parse(raw).state == Exited(status) <==> FileFails(Stripped(raw), 0, status)
  {
    hide File;
    hide FileFails;
    hide Outcome;
    hide Parse;
    var s := Stripped(raw);
    ParseIsOutcome(raw);
    StartIsReady();
    OutcomeIsDerived(START, s);
    if FileFails(s, 0, status) {
      DerivedIsOutcome(START, s, status);
    }
  }
}
