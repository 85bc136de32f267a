/** Comments in string files (rescompiler/textcompiler/src/tux64-textcompiler/lexer.c) leave no trace. */
module Comments {
  import opened Lexer
  import opened TextFile
  import opened Strings

  // ----- Where a comment ends -----

  /** No end of a comment in `body`; `star` says whether a star came right before it. */
  predicate NoEnd(body: string, star: bool) {
    body == ""
    || (if body[0] == '\n' then NoEnd(body[1..], star)
        else !(star && body[0] == '/') && NoEnd(body[1..], body[0] == '*'))
  }

  predicate HasEnd(s: string) {
    exists i :: 0 <= i < |s| - 1 && EndsAt(s, i)
  }

  predicate EndsAt(s: string, i: nat)
    requires i < |s| - 1
  {
    s[i] == '*' && s[i + 1] == '/'
  }

  lemma HasEndStep(c: char, s: string)
    ensures HasEnd([c] + s) <==> HasEnd(s) || (c == '*' && s != "" && s[0] == '/')
  {
    var t := [c] + s;
    if HasEnd(t) {
      var i :| 0 <= i < |t| - 1 && EndsAt(t, i);
      if i > 0 {
        assert EndsAt(s, i - 1);
      }
    }
    if HasEnd(s) {
      var i :| 0 <= i < |s| - 1 && EndsAt(s, i);
      assert EndsAt(t, i + 1);
    }
    if c == '*' && s != "" && s[0] == '/' {
      assert EndsAt(t, 0);
    }
  }

  /** The lexer sees the body without its newlines, so a star and a slash on two lines end it too. */
  lemma {:induction false} NoEndIff(body: string, star: bool)
    ensures NoEnd(body, star) <==> !HasEnd((if star then "*" else "") + Stripped(body))
  {
    if body == "" {
      assert (if star then "*" else "") + "" == if star then "*" else "";
    } else if body[0] == '\n' {
      NoEndIff(body[1..], star);
    } else {
      var rest := Stripped(body[1..]);
      NoEndIff(body[1..], body[0] == '*');
      HasEndStep(body[0], rest);
      if star {
        HasEndStep('*', [body[0]] + rest);
        assert "*" + Stripped(body) == ['*'] + ([body[0]] + rest);
      } else {
        assert "" + Stripped(body) == [body[0]] + rest;
      }
      if body[0] == '*' {
        assert "*" + rest == [body[0]] + rest;
      } else {
        assert "" + rest == rest;
      }
    }
  }

  // ----- Reading over a comment -----

  function Resumed(inEntry: bool): State {
    if inEntry then EntryInitial else Initial
  }

  function Inside(inEntry: bool, star: bool): State {
    if star then CommentEnd(inEntry) else Comment(inEntry)
  }

  lemma InsideStep(lex: Lex, inEntry: bool, star: bool, c: char)
    requires lex.Valid() && lex.state == Inside(inEntry, star)
    ensures Consume(lex, c) == lex.Go(if star && c == '/' then Resumed(inEntry) else Inside(inEntry, c == '*'))
  {
  }

  lemma ReadClosing(raw: string, lex: Lex, inEntry: bool, star: bool)
    requires lex.Valid() && lex.state == Inside(inEntry, star) && At(raw, lex.position, "*/")
    ensures Finish(raw, lex) == Finish(raw, lex.(position := lex.position + 2, state := Resumed(inEntry)))
  {
    hide Finish;
    hide Consume;
    AtFirst(raw, lex.position, "*/");
    OneCharacter(raw, lex);
    var lex' := lex.(position := lex.position + 1);
    InsideStep(lex', inEntry, star, '*');
    AtFirst(raw, lex'.position, "/");
    OneCharacter(raw, lex'.Go(CommentEnd(inEntry)));
    InsideStep(lex'.(position := lex.position + 2, state := CommentEnd(inEntry)), inEntry, true, '/');
  }

  lemma {:induction false} ReadBody(raw: string, lex: Lex, inEntry: bool, star: bool, body: string)
    requires lex.Valid() && lex.state == Inside(inEntry, star) && NoEnd(body, star)
    requires At(raw, lex.position, body + "*/")
    ensures Finish(raw, lex) == Finish(raw, lex.(position := lex.position + |body| + 2, state := Resumed(inEntry)))
    decreases |body|
  {
    hide Finish;
    hide Consume;
    if body == "" {
      assert body + "*/" == "*/";
      ReadClosing(raw, lex, inEntry, star);
    } else {
      AtFirst(raw, lex.position, body + "*/");
      assert (body + "*/")[1..] == body[1..] + "*/";
      var lex' := lex.(position := lex.position + 1);
      if body[0] == '\n' {
        NewlineIsInvisible(raw, lex);
        ReadBody(raw, lex', inEntry, star, body[1..]);
      } else {
        OneCharacter(raw, lex);
        InsideStep(lex', inEntry, star, body[0]);
        ReadBody(raw, lex'.Go(Inside(inEntry, body[0] == '*')), inEntry, body[0] == '*', body[1..]);
      }
    }
  }

  lemma StartsComment(lex: Lex, inEntry: bool)
    requires lex.Valid()
    ensures lex.state == Resumed(inEntry) ==> Consume(lex, '/') == lex.Go(CommentStart(inEntry))
    ensures lex.state == CommentStart(inEntry) ==> Consume(lex, '*') == lex.Go(Comment(inEntry))
  {
  }

  /** Between entries and between fields a comment is read over. */
  lemma ReadComment(raw: string, lex: Lex, inEntry: bool, body: string)
    requires lex.Valid() && lex.state == Resumed(inEntry) && NoEnd(body, false)
    requires At(raw, lex.position, "/*" + (body + "*/"))
    ensures Finish(raw, lex) == Finish(raw, lex.(position := lex.position + |body| + 4))
  {
    hide Finish;
    hide Consume;
    hide NoEnd;
    var p := lex.position;
    AtSplit(raw, p, "/*", body + "*/");
    AtFirst(raw, p, "/*");
    OneCharacter(raw, lex);
    StartsComment(lex.(position := p + 1), inEntry);
    AtFirst(raw, p + 1, "*");
    var begun := lex.(position := p + 1, state := CommentStart(inEntry));
    OneCharacter(raw, begun);
    StartsComment(begun.(position := p + 2), inEntry);
    ReadBody(raw, lex.(position := p + 2, state := Comment(inEntry)), inEntry, false, body);
  }

  // ----- The rest of the file, further along -----

  /** A slice that begins at `p` or behind it moves by `k`. */
  function MoveSlice(s: Slice, p: nat, k: nat): Slice {
    if s.start >= p then s.(start := s.start + k) else s
  }

  function MoveEntry(e: Entry, p: nat, k: nat): Entry {
    Entry(MoveSlice(e.data, p, k), MoveSlice(e.length, p, k), MoveSlice(e.text, p, k))
  }

  function MoveEntries(entries: seq<Entry>, p: nat, k: nat): (r: seq<Entry>)
    ensures |r| == |entries| && forall i :: 0 <= i < |entries| ==> r[i] == MoveEntry(entries[i], p, k)
  {
    seq(|entries|, i requires 0 <= i < |entries| => MoveEntry(entries[i], p, k))
  }

  function Move(lex: Lex, p: nat, k: nat): (r: Lex)
    ensures lex.Valid() ==> r.Valid()
  {
    lex.(position := lex.position + k, entries := MoveEntries(lex.entries, p, k))
  }

  lemma MoveTop(lex: Lex, p: nat, k: nat, e: Entry)
    requires lex.entries != []
    ensures Move(lex, p, k).Top() == MoveEntry(lex.Top(), p, k)
    ensures Move(lex.WithTop(e), p, k) == Move(lex, p, k).WithTop(MoveEntry(e, p, k))
  {
  }

  lemma MoveField(e: Entry, f: Field, s: Slice, p: nat, k: nat)
    ensures MoveEntry(e, p, k).Get(f) == MoveSlice(e.Get(f), p, k)
    ensures MoveEntry(e.With(f, s), p, k) == MoveEntry(e, p, k).With(f, MoveSlice(s, p, k))
  {
  }

  lemma MovePush(lex: Lex, p: nat, k: nat)
    ensures Move(PushEntry(lex), p, k) == PushEntry(Move(lex, p, k))
  {
    assert MoveEntries(lex.entries + [EMPTY_ENTRY], p, k) == MoveEntries(lex.entries, p, k) + [EMPTY_ENTRY];
  }

  /** A state function does the same further along: it looks at counts, and sets starts to where it is. */
  lemma ConsumeMoves(lex: Lex, p: nat, k: nat, c: char)
    requires lex.Valid() && p < lex.position
    ensures Consume(Move(lex, p, k), c) == Move(Consume(lex, c), p, k)
  {
    hide InWaitValue;
    hide InValueIdentifier;
    hide InValueText;
    match lex.state
    case WaitValue(f) => WaitValueMoves(lex, f, p, k, c);
    case ValueIdentifier(f) => ValueIdentifierMoves(lex, f, p, k, c);
    case ValueText => ValueTextMoves(lex, p, k, c);
    case _ => OtherStatesMove(lex, p, k, c);
  }

  lemma InitialMoves(lex: Lex, p: nat, k: nat, c: char)
    ensures InInitial(Move(lex, p, k), c) == Move(InInitial(lex, c), p, k)
  {
    hide PushEntry;
    hide MoveEntries;
    MovePush(lex, p, k);
  }

  lemma EntryInitialMoves(lex: Lex, p: nat, k: nat, c: char)
    requires lex.entries != []
    ensures InEntryInitial(Move(lex, p, k), c) == Move(InEntryInitial(lex, c), p, k)
  {
    hide MoveEntries;
    MoveTop(lex, p, k, lex.Top());
  }

  lemma EntryIdentifierMoves(lex: Lex, hash: bv32, p: nat, k: nat, c: char)
    ensures InEntryIdentifier(Move(lex, p, k), hash, c) == Move(InEntryIdentifier(lex, hash, c), p, k)
  {
    hide MoveEntries;
    hide DigestHash;
  }

  lemma OtherStatesMove(lex: Lex, p: nat, k: nat, c: char)
    requires lex.Valid() && !lex.state.WaitValue? && !lex.state.ValueIdentifier? && !lex.state.ValueText?
    ensures Consume(Move(lex, p, k), c) == Move(Consume(lex, c), p, k)
  {
    hide IsWhitespace;
    hide MoveEntries;
    hide InInitial;
    hide InEntryInitial;
    hide InEntryIdentifier;
    match lex.state
    case Initial => InitialMoves(lex, p, k, c);
    case EntryInitial => EntryInitialMoves(lex, p, k, c);
    case EntryIdentifier(hash) => EntryIdentifierMoves(lex, hash, p, k, c);
    case _ =>
  }

  /** Setting a field of the top entry commutes with moving. */
  lemma MoveSet(lex: Lex, p: nat, k: nat, f: Field, s: Slice)
    requires lex.entries != []
    ensures Move(lex.WithTop(lex.Top().With(f, s)), p, k)
         == Move(lex, p, k).WithTop(Move(lex, p, k).Top().With(f, MoveSlice(s, p, k)))
    ensures Move(lex, p, k).Top().Get(f) == MoveSlice(lex.Top().Get(f), p, k)
  {
    hide Move;
    hide MoveEntry;
    hide MoveSlice;
    MoveTop(lex, p, k, lex.Top().With(f, s));
    MoveField(lex.Top(), f, s, p, k);
  }

  lemma ValueIdentifierMoves(lex: Lex, f: Field, p: nat, k: nat, c: char)
    requires lex.entries != []
    ensures InValueIdentifier(Move(lex, p, k), f, c) == Move(InValueIdentifier(lex, f, c), p, k)
  {
    hide MoveEntries;
    var s := lex.Top().Get(f);
    MoveSet(lex, p, k, f, s.(characters := s.characters + 1));
  }

  lemma ValueTextMoves(lex: Lex, p: nat, k: nat, c: char)
    requires lex.entries != []
    ensures InValueText(Move(lex, p, k), c) == Move(InValueText(lex, c), p, k)
  {
    hide MoveEntries;
    var s := lex.Top().text;
    MoveSet(lex, p, k, Text, s.(characters := s.characters + 1));
  }

  lemma StartIdentifierMoves(lex: Lex, f: Field, p: nat, k: nat, c: char)
    requires lex.entries != [] && p < lex.position
    ensures StartIdentifier(Move(lex, p, k), f, c) == Move(StartIdentifier(lex, f, c), p, k)
  {
    hide MoveEntries;
    hide InValueIdentifier;
    var s := lex.Top().Get(f).(start := lex.position - 1);
    MoveSet(lex, p, k, f, s);
    ValueIdentifierMoves(lex.WithTop(lex.Top().With(f, s)).Go(ValueIdentifier(f)), f, p, k, c);
  }

  lemma StartTextMoves(lex: Lex, p: nat, k: nat, c: char)
    requires lex.entries != [] && p < lex.position
    ensures StartText(Move(lex, p, k), c) == Move(StartText(lex, c), p, k)
  {
    hide MoveEntries;
    MoveSet(lex, p, k, Text, lex.Top().text.(start := lex.position));
  }

  lemma WaitValueMoves(lex: Lex, f: Field, p: nat, k: nat, c: char)
    requires lex.entries != [] && p < lex.position
    ensures InWaitValue(Move(lex, p, k), f, c) == Move(InWaitValue(lex, f, c), p, k)
  {
    hide MoveEntries;
    hide StartText;
    hide StartIdentifier;
    StartTextMoves(lex, p, k, c);
    StartIdentifierMoves(lex, f, p, k, c);
  }

  lemma {:induction false} NextMoves(raw: string, raw': string, k: nat, q: nat)
    requires q <= |raw| && |raw'| == |raw| + k && forall i :: q <= i < |raw| ==> raw'[i + k] == raw[i]
    ensures Next(raw', q + k) == Next(raw, q) + k
    decreases |raw| - q
  {
    if q < |raw| {
      assert raw'[q + k] == raw[q];
      if raw[q] == '\n' {
        NextMoves(raw, raw', k, q + 1);
      }
    }
  }

  lemma StepMoves(raw: string, raw': string, lex: Lex, p: nat, k: nat)
    requires lex.Valid() && p <= lex.position <= |raw|
    requires |raw'| == |raw| + k && forall i :: p <= i < |raw| ==> raw'[i + k] == raw[i]
    ensures Step(raw', Move(lex, p, k)) == Move(Step(raw, lex), p, k)
  {
    hide Consume;
    NextMoves(raw, raw', k, lex.position);
    var q := Next(raw, lex.position);
    if q < |raw| {
      assert raw'[q + k] == raw[q];
      ConsumeMoves(lex.(position := q + 1), p, k, raw[q]);
    }
  }

  lemma {:induction false} FinishMoves(raw: string, raw': string, lex: Lex, p: nat, k: nat)
    requires lex.Valid() && p <= lex.position <= |raw|
    requires |raw'| == |raw| + k && forall i :: p <= i < |raw| ==> raw'[i + k] == raw[i]
    ensures Finish(raw', Move(lex, p, k)) == Move(Finish(raw, lex), p, k)
    decreases |raw| - lex.position, !lex.state.Exited?
  {
    hide Step;
    hide MoveEntries;
    if !lex.state.Exited? {
      StepMoves(raw, raw', lex, p, k);
      FinishMoves(raw, raw', Step(raw, lex), p, k);
    }
  }

  // ----- The file up to the comment -----

  /** The lexer after `n` calls of state functions. */
  function Run(raw: string, n: nat): (r: Lex)
    ensures r.Valid() && r.position <= |raw|
  {
    if n == 0 then START else Step(raw, Run(raw, n - 1))
  }

  lemma ExitedStays(raw: string, lex: Lex)
    requires lex.Valid() && lex.position <= |raw|
    ensures lex.state.Exited? ==> Step(raw, lex).state.Exited?
  {
  }

  lemma {:induction false} ParseContinues(raw: string, n: nat)
    requires !Run(raw, n).state.Exited?
    ensures Parse(raw) == Finish(raw, Run(raw, n))
  {
    hide Step;
    if n > 0 {
      ExitedStays(raw, Run(raw, n - 1));
      ParseContinues(raw, n - 1);
    }
  }

  predicate SamePrefix(raw: string, raw': string, p: nat) {
    p <= |raw| && p <= |raw'| && forall i :: 0 <= i < p ==> raw[i] == raw'[i]
  }

  lemma {:induction false} NextInPrefix(raw: string, raw': string, p: nat, q: nat)
    requires SamePrefix(raw, raw', p) && q <= |raw| && Next(raw, q) < p
    ensures q <= |raw'| && Next(raw', q) == Next(raw, q)
    decreases p - q
  {
    if raw[q] == '\n' {
      NextInPrefix(raw, raw', p, q + 1);
    }
  }

  lemma StepInPrefix(raw: string, raw': string, p: nat, lex: Lex)
    requires SamePrefix(raw, raw', p) && lex.Valid() && lex.position <= |raw|
    requires !Step(raw, lex).state.Exited? && Step(raw, lex).position <= p
    ensures lex.position <= |raw'| && Step(raw', lex) == Step(raw, lex)
  {
    hide Consume;
    NextInPrefix(raw, raw', p, lex.position);
  }

  /** What follows a prefix has no influence while the lexer is still within it. */
  lemma {:induction false} RunInPrefix(raw: string, raw': string, p: nat, n: nat)
    requires SamePrefix(raw, raw', p) && !Run(raw, n).state.Exited? && Run(raw, n).position <= p
    ensures Run(raw', n) == Run(raw, n)
  {
    hide Step;
    if n > 0 {
      ExitedStays(raw, Run(raw, n - 1));
      RunInPrefix(raw, raw', p, n - 1);
      StepInPrefix(raw, raw', p, Run(raw, n - 1));
    }
  }

  /** No slice begins behind what was read; only a text that is just being entered begins right there. */
  ghost predicate StartsBehind(lex: Lex, bound: nat) {
    forall i, f: Field :: 0 <= i < |lex.entries| ==> lex.entries[i].Get(f).start < bound
  }

  lemma SetStartsBehind(lex: Lex, bound: nat, f: Field, s: Slice)
    requires lex.entries != [] && StartsBehind(lex, bound) && s.start < bound
    ensures StartsBehind(lex.WithTop(lex.Top().With(f, s)), bound)
  {
    var entries := lex.WithTop(lex.Top().With(f, s)).entries;
    forall i, g: Field | 0 <= i < |entries| ensures entries[i].Get(g).start < bound {
      assert lex.entries[i].Get(g).start < bound;
      if i == |entries| - 1 {
        assert entries[i].Get(g) == if g == f then s else lex.entries[i].Get(g);
      }
    }
  }

  lemma PushStartsBehind(lex: Lex, bound: nat)
    requires StartsBehind(lex, bound)
    ensures StartsBehind(PushEntry(lex), bound)
  {
    forall f: Field ensures EMPTY_ENTRY.Get(f) == UNSET {
      match f case Data => case Length => case Text =>
    }
    forall i, f: Field | 0 <= i < |PushEntry(lex).entries| ensures PushEntry(lex).entries[i].Get(f).start < bound {
      if i < |lex.entries| {
        assert lex.entries[i].Get(f).start < bound;
      }
    }
  }

  lemma ValueIdentifierStartsBehind(lex: Lex, f: Field, c: char, bound: nat)
    requires lex.entries != [] && StartsBehind(lex, bound)
    ensures StartsBehind(InValueIdentifier(lex, f, c), bound)
  {
    var s := lex.Top().Get(f);
    assert lex.entries[|lex.entries| - 1].Get(f).start < bound;
    SetStartsBehind(lex, bound, f, s.(characters := s.characters + 1));
  }

  lemma ConsumeStartsBehind(lex: Lex, c: char)
    requires lex.Valid() && lex.position > 0 && StartsBehind(lex, lex.position)
    ensures var r := Consume(lex, c); StartsBehind(r, r.position + if r.state.ValueText? then 1 else 0)
  {
    var p := lex.position;
    match lex.state
    case Initial => PushStartsBehind(lex, p);
    case WaitValue(f) =>
      var s := lex.Top().Get(f).(start := p - 1);
      SetStartsBehind(lex, p, f, s);
      ValueIdentifierStartsBehind(lex.WithTop(lex.Top().With(f, s)).Go(ValueIdentifier(f)), f, c, p);
      StartsBehindLater(lex, p, p + 1);
      SetStartsBehind(lex, p + 1, Text, lex.Top().text.(start := p));
    case ValueIdentifier(f) => ValueIdentifierStartsBehind(lex, f, c, p);
    case ValueText =>
      assert lex.entries[|lex.entries| - 1].Get(Text).start < p;
      SetStartsBehind(lex, p, Text, lex.Top().text.(characters := lex.Top().text.characters + 1));
    case _ =>
  }

  lemma StartsBehindLater(lex: Lex, bound: nat, later: nat)
    requires StartsBehind(lex, bound) && bound <= later
    ensures StartsBehind(lex, later) && StartsBehind(lex.(position := later), later)
  {
  }

  lemma StepStartsBehind(raw: string, lex: Lex)
    requires lex.Valid() && lex.position <= |raw|
    requires StartsBehind(lex, lex.position + if lex.state.ValueText? then 1 else 0)
    ensures !Step(raw, lex).state.Exited? ==>
              StartsBehind(Step(raw, lex), Step(raw, lex).position + if Step(raw, lex).state.ValueText? then 1 else 0)
  {
    hide Consume;
    hide StartsBehind;
    var q := Next(raw, lex.position);
    if q < |raw| {
      StartsBehindLater(lex, lex.position + if lex.state.ValueText? then 1 else 0, q + 1);
      ConsumeStartsBehind(lex.(position := q + 1), raw[q]);
    }
  }

  lemma StartsBehindAtFirst()
    ensures StartsBehind(START, 0)
  {
  }

  lemma {:induction false} RunStartsBehind(raw: string, n: nat)
    requires !Run(raw, n).state.Exited?
    ensures StartsBehind(Run(raw, n), Run(raw, n).position + if Run(raw, n).state.ValueText? then 1 else 0)
  {
    hide StartsBehind;
    hide Step;
    if n == 0 {
      StartsBehindAtFirst();
    } else {
      ExitedStays(raw, Run(raw, n - 1));
      RunStartsBehind(raw, n - 1);
      StepStartsBehind(raw, Run(raw, n - 1));
    }
  }

  lemma NothingMoves(lex: Lex, k: nat)
    requires StartsBehind(lex, lex.position)
    ensures Move(lex, lex.position, k) == lex.(position := lex.position + k)
  {
    forall i | 0 <= i < |lex.entries| ensures MoveEntry(lex.entries[i], lex.position, k) == lex.entries[i] {
      assert lex.entries[i].Get(Data).start < lex.position;
      assert lex.entries[i].Get(Length).start < lex.position;
      assert lex.entries[i].Get(Text).start < lex.position;
    }
    assert MoveEntries(lex.entries, lex.position, k) == lex.entries;
  }

  function CommentOf(body: string): string {
    "/*" + (body + "*/")
  }

  function Inserted(raw: string, p: nat, text: string): string
    requires p <= |raw|
  {
    raw[..p] + text + raw[p..]
  }

  /**
   A comment put where the lexer stands between entries or between fields changes nothing:
   the same status, the same entries, the slices behind it moved by its length.
   */
  lemma CommentIsTransparent(raw: string, n: nat, body: string)
    requires Run(raw, n).state == Initial || Run(raw, n).state == EntryInitial
    requires !HasEnd(Stripped(body))
    ensures var p := Run(raw, n).position;
            Parse(Inserted(raw, p, CommentOf(body))) == Move(Parse(raw), p, |CommentOf(body)|)
  {
    hide Finish;
    hide Consume;
    hide Step;
    hide NoEnd;
    hide MoveEntries;
    var lex := Run(raw, n);
    var p, comment := lex.position, CommentOf(body);
    var raw' := Inserted(raw, p, comment);
    var k := |comment|;
    assert SamePrefix(raw, raw', p) && At(raw', p, comment);
    RunInPrefix(raw, raw', p, n);
    ParseContinues(raw, n);
    ParseContinues(raw', n);
    NoEndIff(body, false);
    assert "" + Stripped(body) == Stripped(body);
    ReadComment(raw', lex, lex.state == EntryInitial, body);
    RunStartsBehind(raw, n);
    NothingMoves(lex, k);
    FinishMoves(raw, raw', lex, p, k);
  }

  /** A moved slice reads the same, unless it reaches over the place of the comment. */
  lemma MovedSliceReads(raw: string, p: nat, text: string, s: Slice, v: string)
    requires p <= |raw| && Reads(raw, s, v) && (p <= s.start || s.start + s.characters <= p)
    ensures Reads(Inserted(raw, p, text), MoveSlice(s, p, |text|), v)
  {
    var raw', moved := Inserted(raw, p, text), MoveSlice(s, p, |text|);
    forall i | 0 <= i < |v| ensures raw'[moved.start + i] == v[i] {
      assert raw[s.start..s.start + |v|][i] == v[i];
    }
    assert raw'[moved.start..moved.start + |v|] == v;
  }
}
