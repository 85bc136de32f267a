/**
 Where the slices of any accepted string file lie, and what they cut out of it: what the lexer
 (rescompiler/textcompiler/src/tux64-textcompiler/lexer.c) hands to the formatter.
 */
module Slices {
  import opened Common
  import opened Lexer
  import opened Strings
  import opened TextFile

  /** The slice lies in the file. */
  predicate Inside(raw: string, s: Slice) {
    0 <= s.start && s.start + s.characters <= |raw|
  }

  /** What is found where the slice points. */
  function Cut(raw: string, s: Slice): string
    requires Inside(raw, s)
  {
    raw[s.start..s.start + s.characters]
  }

  // ----- Values as the state machine reads them -----

  /** What may be collected in a value. */
  predicate Collects(f: Field, c: char) {
    if f == Text then IsTextCharacter(c) else IsIdentifierCharacter(c)
  }

  /** What ends a value: the second quotation mark, or whitespace or a semicolon behind an identifier. */
  predicate Ends(f: Field, c: char) {
    if f == Text then c == '\"' else IsWhitespace(c) || c == ';'
  }

  /** Nothing but characters of the value and newlines, which are left out of it. */
  ghost predicate Behind(raw: string, f: Field, from: int, to: int) {
    && 0 <= from <= to <= |raw|
    && (forall k :: from <= k < to ==> raw[k] == '\n' || Collects(f, raw[k]))
    && (f != Text ==> from < to && raw[from] != '\n' && raw[from] != '.')
  }

  /** The count is that of the characters read, if the field has been given no value before. */
  ghost predicate Counts(raw: string, s: Slice, to: int, once: bool) {
    once ==> 0 <= s.start <= to <= |raw| && s.characters == |Stripped(raw[s.start..to])|
  }

  /** A value that ended at `to`. */
  ghost predicate EndedAt(raw: string, f: Field, s: Slice, to: int, once: bool) {
    && Behind(raw, f, s.start, to) && to < |raw| && raw[to] != '\n' && Ends(f, raw[to])
    && Counts(raw, s, to, once)
  }

  /** A field that is not being read: never set, or with a value that has ended. */
  ghost predicate Closed(raw: string, f: Field, s: Slice, position: nat, once: bool) {
    s == UNSET || exists to :: EndedAt(raw, f, s, to, once) && to < position
  }

  /** A field that is being read. */
  ghost predicate Open(raw: string, f: Field, s: Slice, position: nat, once: bool) {
    Behind(raw, f, s.start, position) && Counts(raw, s, position, once)
  }

  /** The field whose value is read or waited for. */
  function Current(s: State): Option<Field> {
    match s
    case WaitValue(f) => Some(f)
    case ValueIdentifier(f) => Some(f)
    case ValueText => Some(Text)
    case _ => None
  }

  /** All fields of an entry are closed, except one that is read at the moment. */
  ghost predicate FieldsClosed(raw: string, e: Entry, but: Option<Field>, position: nat, once: bool) {
    forall f: Field :: but != Some(f) ==> Closed(raw, f, e.Get(f), position, once)
  }

  /** The invariant of every run: where the slices of all entries lie. */
  ghost predicate Sliced(raw: string, lex: Lex, once: bool) {
    && (forall i :: 0 <= i < |lex.entries| - 1 ==> FieldsClosed(raw, lex.entries[i], None, lex.position, once))
    && (lex.entries != [] ==> FieldsClosed(raw, lex.Top(), Current(lex.state), lex.position, once))
    && (lex.entries != [] && lex.state.ValueIdentifier? ==>
          Open(raw, lex.state.field, lex.Top().Get(lex.state.field), lex.position, once))
    && (lex.entries != [] && lex.state.ValueText? ==> Open(raw, Text, lex.Top().text, lex.position, once))
  }

  // ----- Files that give no field a second value -----

  /** A value is only waited for where nothing has been counted yet. */
  predicate FirstValue(lex: Lex)
    requires lex.Valid()
  {
    lex.state.WaitValue? ==> lex.Top().Get(lex.state.field).characters == 0
  }

  /** On the whole run, no field of an entry is given a second value. */
  predicate NeverRepeats(raw: string, lex: Lex)
    requires lex.Valid() && lex.position <= |raw|
    decreases |raw| - lex.position
  {
    if lex.state.Exited? || lex.position == |raw| then true
    else if raw[lex.position] == '\n' then NeverRepeats(raw, lex.(position := lex.position + 1))
    else FirstValue(lex) && NeverRepeats(raw, Consume(lex.(position := lex.position + 1), raw[lex.position]))
  }

  // ----- Steps -----

  lemma {:induction false} StrippedOfLonger(s: string, c: char)
    ensures Stripped(s + [c]) == Stripped(s) + if c == '\n' then "" else [c]
  {
    if s == "" {
      assert (s + [c])[1..] == "";
    } else {
      assert (s + [c])[1..] == s[1..] + [c];
      StrippedOfLonger(s[1..], c);
    }
  }

  lemma CountsOneMore(raw: string, s: Slice, to: int, once: bool)
    requires to < |raw| && 0 <= s.start <= to && Counts(raw, s, to, once)
    ensures raw[to] == '\n' ==> Counts(raw, s, to + 1, once)
    ensures raw[to] != '\n' ==> Counts(raw, s.(characters := s.characters + 1), to + 1, once)
  {
    assert raw[s.start..to + 1] == raw[s.start..to] + [raw[to]];
    StrippedOfLonger(raw[s.start..to], raw[to]);
  }

  lemma OpenGoesOn(raw: string, f: Field, s: Slice, position: nat, once: bool)
    requires position < |raw| && Open(raw, f, s, position, once)
    ensures raw[position] == '\n' ==> Open(raw, f, s, position + 1, once)
    ensures raw[position] != '\n' && Collects(f, raw[position]) ==>
              Open(raw, f, s.(characters := s.characters + 1), position + 1, once)
    ensures raw[position] != '\n' && Ends(f, raw[position]) ==> Closed(raw, f, s, position + 1, once)
  {
    CountsOneMore(raw, s, position, once);
    if raw[position] != '\n' && Ends(f, raw[position]) {
      assert EndedAt(raw, f, s, position, once);
    }
  }

  lemma StaysClosed(raw: string, e: Entry, but: Option<Field>, position: nat, once: bool)
    requires FieldsClosed(raw, e, but, position, once)
    ensures FieldsClosed(raw, e, but, position + 1, once)
  {
    forall f: Field | but != Some(f) ensures Closed(raw, f, e.Get(f), position + 1, once) {
      assert Closed(raw, f, e.Get(f), position, once);
    }
  }

  /** Everything that is closed stays so one character further on. */
  lemma AllStayClosed(raw: string, lex: Lex, once: bool)
    requires Sliced(raw, lex, once)
    ensures forall i ::
              0 <= i < |lex.entries| - 1 ==> FieldsClosed(raw, lex.entries[i], None, lex.position + 1, once)
    ensures lex.entries != [] ==> FieldsClosed(raw, lex.Top(), Current(lex.state), lex.position + 1, once)
  {
    hide FieldsClosed;
    forall i | 0 <= i < |lex.entries| - 1
      ensures FieldsClosed(raw, lex.entries[i], None, lex.position + 1, once)
    {
      StaysClosed(raw, lex.entries[i], None, lex.position, once);
    }
    if lex.entries != [] {
      StaysClosed(raw, lex.Top(), Current(lex.state), lex.position, once);
    }
  }

  lemma NewlineKeepsSliced(raw: string, lex: Lex, once: bool)
    requires lex.Valid() && lex.position < |raw| && raw[lex.position] == '\n' && Sliced(raw, lex, once)
    ensures Sliced(raw, lex.(position := lex.position + 1), once)
  {
    AllStayClosed(raw, lex, once);
    hide FieldsClosed;
    if lex.state.ValueIdentifier? {
      OpenGoesOn(raw, lex.state.field, lex.Top().Get(lex.state.field), lex.position, once);
    } else if lex.state.ValueText? {
      OpenGoesOn(raw, Text, lex.Top().text, lex.position, once);
    }
    hide Open;
  }

  ghost predicate Kept(raw: string, r: Lex, once: bool) {
    r.state.Exited? || Sliced(raw, r, once)
  }

  lemma TopChanges(raw: string, lex: Lex, r: Lex, once: bool)
    requires lex.entries != [] && Sliced(raw, lex, once) && r.position == lex.position + 1
    requires |r.entries| == |lex.entries| && r.entries[..|lex.entries| - 1] == lex.entries[..|lex.entries| - 1]
    requires FieldsClosed(raw, r.Top(), Current(r.state), r.position, once)
    requires r.state.ValueIdentifier? ==> Open(raw, r.state.field, r.Top().Get(r.state.field), r.position, once)
    requires r.state.ValueText? ==> Open(raw, Text, r.Top().text, r.position, once)
    ensures Sliced(raw, r, once)
  {
    AllStayClosed(raw, lex, once);
    hide FieldsClosed;
    hide Open;
    forall i | 0 <= i < |r.entries| - 1 ensures r.entries[i] == lex.entries[i] {
      assert r.entries[..|lex.entries| - 1][i] == lex.entries[..|lex.entries| - 1][i];
    }
  }

  /** One field of the top entry is set; the others stay closed. */
  lemma SetCloses(raw: string, lex: Lex, f: Field, s: Slice, but: Option<Field>, once: bool)
    requires lex.entries != [] && Sliced(raw, lex, once)
    requires Current(lex.state) == None || Current(lex.state) == Some(f)
    requires but == Some(f) || (but == None && Closed(raw, f, s, lex.position + 1, once))
    ensures FieldsClosed(raw, lex.Top().With(f, s), but, lex.position + 1, once)
  {
    AllStayClosed(raw, lex, once);
    hide Closed;
    forall g: Field | but != Some(g) ensures Closed(raw, g, lex.Top().With(f, s).Get(g), lex.position + 1, once) {
      if g != f {
        assert Closed(raw, g, lex.Top().Get(g), lex.position + 1, once);
      }
    }
  }

  lemma SetToItself(e: Entry, f: Field)
    ensures e.With(f, e.Get(f)) == e && e.With(f, e.Get(f)).Get(f) == e.Get(f)
    ensures forall s: Slice :: e.With(f, s).Get(f) == s
  {
  }

  lemma ValueIdentifierKeeps(raw: string, lex: Lex, f: Field, c: char, once: bool)
    requires lex.Valid() && lex.position < |raw| && raw[lex.position] == c && c != '\n'
    requires Sliced(raw, lex, once) && lex.state == ValueIdentifier(f)
    ensures Kept(raw, InValueIdentifier(lex.(position := lex.position + 1), f, c), once)
  {
    var r := InValueIdentifier(lex.(position := lex.position + 1), f, c);
    var s := lex.Top().Get(f);
    OpenGoesOn(raw, f, s, lex.position, once);
    SetToItself(lex.Top(), f);
    hide Sliced;
    hide Open;
    hide Closed;
    if IsWhitespace(c) || c == ';' {
      SetCloses(raw, lex, f, s, None, once);
    } else {
      SetCloses(raw, lex, f, s.(characters := s.characters + 1), Some(f), once);
    }
    if !r.state.Exited? {
      TopChanges(raw, lex, r, once);
    }
  }

  lemma ValueTextKeeps(raw: string, lex: Lex, c: char, once: bool)
    requires lex.Valid() && lex.position < |raw| && raw[lex.position] == c && c != '\n'
    requires Sliced(raw, lex, once) && lex.state == ValueText
    ensures Kept(raw, InValueText(lex.(position := lex.position + 1), c), once)
  {
    var r := InValueText(lex.(position := lex.position + 1), c);
    var s := lex.Top().text;
    OpenGoesOn(raw, Text, s, lex.position, once);
    SetToItself(lex.Top(), Text);
    hide Sliced;
    hide Open;
    hide Closed;
    if c == '\"' {
      SetCloses(raw, lex, Text, s, None, once);
    } else {
      SetCloses(raw, lex, Text, s.(characters := s.characters + 1), Some(Text), once);
    }
    if !r.state.Exited? {
      TopChanges(raw, lex, r, once);
    }
  }

  lemma ValueBegins(raw: string, f: Field, position: nat, n: nat, once: bool)
    requires position < |raw| && raw[position] != '\n' && (once ==> n == 0)
    ensures f != Text && raw[position] != '.' && Collects(f, raw[position]) ==>
              Open(raw, f, Slice(position, n + 1), position + 1, once)
    ensures f == Text ==> Open(raw, f, Slice(position + 1, n), position + 1, once)
  {
    assert raw[position..position + 1] == [raw[position]] && raw[position + 1..position + 1] == "";
    assert [raw[position]][1..] == "";
  }

  lemma WaitValueKeeps(raw: string, lex: Lex, f: Field, c: char, once: bool)
    requires lex.Valid() && lex.position < |raw| && raw[lex.position] == c && c != '\n'
    requires Sliced(raw, lex, once) && lex.state == WaitValue(f) && (once ==> FirstValue(lex))
    ensures Kept(raw, InWaitValue(lex.(position := lex.position + 1), f, c), once)
  {
    var r := InWaitValue(lex.(position := lex.position + 1), f, c);
    var n := lex.Top().Get(f).characters;
    ValueBegins(raw, f, lex.position, n, once);
    SetToItself(lex.Top(), f);
    hide Sliced;
    hide Open;
    hide Closed;
    if !r.state.Exited? {
      SetCloses(raw, lex, f, r.Top().Get(f), Some(f), once);
      assert r.Top() == lex.Top().With(f, r.Top().Get(f));
      TopChanges(raw, lex, r, once);
    }
  }

  lemma NewEntryIsClosed(raw: string, position: nat, once: bool)
    ensures FieldsClosed(raw, EMPTY_ENTRY, None, position, once)
  {
    forall f: Field ensures Closed(raw, f, EMPTY_ENTRY.Get(f), position, once) {
      match f case Data => case Length => case Text =>
    }
  }

  lemma PushKeeps(raw: string, lex: Lex, once: bool)
    requires lex.Valid() && Sliced(raw, lex, once) && lex.state == Initial
    ensures Kept(raw, PushEntry(lex.(position := lex.position + 1)), once)
  {
    AllStayClosed(raw, lex, once);
    NewEntryIsClosed(raw, lex.position + 1, once);
    hide FieldsClosed;
  }

  /** States in which nothing is read into a slice. */
  lemma OtherStatesKeep(raw: string, lex: Lex, c: char, once: bool)
    requires lex.Valid() && Sliced(raw, lex, once) && Current(lex.state) == None && !lex.state.Exited?
    ensures Kept(raw, Consume(lex.(position := lex.position + 1), c), once)
  {
    hide IsWhitespace;
    hide PushEntry;
    if lex.state == Initial && c == '{' && !IsWhitespace(c) {
      PushKeeps(raw, lex, once);
    } else {
      AllStayClosed(raw, lex, once);
      OnlyStateChanges(lex, c);
      if lex.entries != [] {
        WaitsForMore(raw, lex, once);
      }
      hide FieldsClosed;
    }
  }

  lemma OnlyStateChanges(lex: Lex, c: char)
    requires lex.Valid() && Current(lex.state) == None && !lex.state.Exited?
    requires !(lex.state == Initial && c == '{' && !IsWhitespace(c))
    ensures var r := Consume(lex, c);
            r.entries == lex.entries && (Current(r.state) == None || r.state.WaitValue?)
  {
    hide IsWhitespace;
  }

  lemma WaitsForMore(raw: string, lex: Lex, once: bool)
    requires Sliced(raw, lex, once) && lex.entries != [] && Current(lex.state) == None
    ensures forall f: Field :: FieldsClosed(raw, lex.Top(), Some(f), lex.position + 1, once)
  {
    AllStayClosed(raw, lex, once);
  }

  lemma ConsumeKeepsSliced(raw: string, lex: Lex, once: bool)
    requires lex.Valid() && lex.position < |raw| && raw[lex.position] != '\n' && !lex.state.Exited?
    requires Sliced(raw, lex, once) && (once ==> FirstValue(lex))
    ensures Kept(raw, Consume(lex.(position := lex.position + 1), raw[lex.position]), once)
  {
    hide Kept;
    hide Sliced;
    hide InWaitValue;
    hide InValueIdentifier;
    hide InValueText;
    match lex.state
    case WaitValue(f) => WaitValueKeeps(raw, lex, f, raw[lex.position], once);
    case ValueIdentifier(f) => ValueIdentifierKeeps(raw, lex, f, raw[lex.position], once);
    case ValueText => ValueTextKeeps(raw, lex, raw[lex.position], once);
    case Exited(_) =>
    case _ => OtherStatesKeep(raw, lex, raw[lex.position], once);
  }

  // ----- Whole files -----

  /** All slices of all entries end somewhere in the file. */
  ghost predicate AllClosed(raw: string, entries: seq<Entry>, once: bool) {
    forall i, f: Field :: 0 <= i < |entries| ==> Closed(raw, f, entries[i].Get(f), |raw|, once)
  }

  lemma EndClosesAll(raw: string, lex: Lex, once: bool)
    requires lex.Valid() && lex.position == |raw| && lex.state == Initial && Sliced(raw, lex, once)
    ensures AllClosed(raw, lex.entries, once)
  {
    hide Closed;
    forall i, f: Field | 0 <= i < |lex.entries| ensures Closed(raw, f, lex.entries[i].Get(f), |raw|, once) {
      assert FieldsClosed(raw, lex.entries[i], None, |raw|, once);
    }
  }

  lemma AtEndOnlyInitialIsOk(raw: string, lex: Lex)
    requires lex.Valid() && lex.position == |raw| && !lex.state.Exited?
    ensures Finish(raw, lex).entries == lex.entries
    ensures Finish(raw, lex).state == Exited(Ok) ==> lex.state == Initial
  {
    assert Step(raw, lex) == lex.(state := Exited(AtEnd(lex)));
  }

  lemma ExitedStays(raw: string, lex: Lex)
    requires lex.Valid() && lex.position <= |raw| && lex.state.Exited?
    ensures Finish(raw, lex) == lex
  {
  }

  lemma {:induction false} FinishClosesAll(raw: string, lex: Lex, once: bool)
    requires lex.Valid() && lex.position <= |raw| && !lex.state.Exited? && Sliced(raw, lex, once)
    requires once ==> NeverRepeats(raw, lex)
    ensures Finish(raw, lex).state == Exited(Ok) ==> AllClosed(raw, Finish(raw, lex).entries, once)
    decreases |raw| - lex.position
  {
    hide Finish;
    hide Sliced;
    hide AllClosed;
    hide Consume;
    if lex.position == |raw| {
      AtEndOnlyInitialIsOk(raw, lex);
      if lex.state == Initial {
        EndClosesAll(raw, lex, once);
      }
    } else if raw[lex.position] == '\n' {
      NewlineIsInvisible(raw, lex);
      NewlineKeepsSliced(raw, lex, once);
      FinishClosesAll(raw, lex.(position := lex.position + 1), once);
    } else {
      var r := Consume(lex.(position := lex.position + 1), raw[lex.position]);
      OneCharacter(raw, lex);
      ConsumeKeepsSliced(raw, lex, once);
      if r.state.Exited? {
        ExitedStays(raw, r);
        ConsumeIsNeverOk(lex.(position := lex.position + 1), raw[lex.position]);
      } else {
        FinishClosesAll(raw, r, once);
      }
    }
  }

  lemma ParseClosesAll(raw: string, once: bool)
    requires Parse(raw).state == Exited(Ok) && (once ==> NeverRepeats(raw, START))
    ensures AllClosed(raw, Parse(raw).entries, once) && Accepted(Parse(raw))
  {
    FinishClosesAll(raw, START, once);
    ParsedFilesAreComplete(raw);
  }

  /** A slice with characters, closed, begins at a value that ends in the file. */
  lemma ClosedEnds(raw: string, f: Field, s: Slice, once: bool) returns (to: int)
    requires Closed(raw, f, s, |raw|, once) && s.characters != 0
    ensures EndedAt(raw, f, s, to, once)
  {
    to :| EndedAt(raw, f, s, to, once) && to < |raw|;
  }

  lemma AcceptedFieldEnds(raw: string, i: nat, f: Field, once: bool) returns (to: int)
    requires Parse(raw).state == Exited(Ok) && i < |Parse(raw).entries| && (once ==> NeverRepeats(raw, START))
    ensures EndedAt(raw, f, Parse(raw).entries[i].Get(f), to, once)
    ensures 0 < Parse(raw).entries[i].Get(f).characters
    ensures f == Text ==> Parse(raw).entries[i].Get(f).characters <= 255
  {
    hide Parse;
    hide NeverRepeats;
    ParseClosesAll(raw, once);
    assert Closed(raw, f, Parse(raw).entries[i].Get(f), |raw|, once);
    assert Parse(raw).entries[i].Complete();
    to := ClosedEnds(raw, f, Parse(raw).entries[i].Get(f), once);
  }

  /** The characters at which a slice gives itself away: a text with a newline or a quotation mark, and so on. */
  predicate Unbroken(f: Field, s: string) {
    if f == Text then '\n' !in s && '\"' !in s
    else forall k :: 0 <= k < |s| ==> !IsWhitespace(s[k]) && s[k] != ';'
  }

  /** A slice that cuts out a value of its field. */
  predicate CutsValue(raw: string, f: Field, s: Slice) {
    Inside(raw, s) && ValidValue(f, Cut(raw, s))
  }

  lemma CutIsValue(raw: string, f: Field, s: Slice, to: int, once: bool)
    requires EndedAt(raw, f, s, to, once) && Inside(raw, s) && 0 < s.characters && (f == Text ==> s.characters <= 255)
    ensures ValidValue(f, Cut(raw, s)) <==> Unbroken(f, Cut(raw, s))
  {
    var cut := Cut(raw, s);
    if to < s.start + s.characters {
      assert cut[to - s.start] == raw[to];
      assert cut[to - s.start] in cut && !Unbroken(f, cut);
    }
    if Unbroken(f, cut) {
      forall k | 0 <= k < |cut| ensures Collects(f, cut[k]) {
        assert cut[k] == raw[s.start + k];
        assert cut[k] in cut;
        assert f != Text ==> IsWhitespace('\n');
      }
    }
    if f == Text && ValidValue(f, cut) {
      assert forall k :: 0 <= k < |cut| ==> IsTextCharacter(cut[k]);
    }
  }

  /**
   For every file that is accepted: a slice cuts out a value of its field exactly when it lies in the file and,
   for a text, holds neither newline nor quotation mark, for an identifier, neither whitespace nor semicolon.
   */
  lemma AcceptedSliceIsValueIff(raw: string, i: nat, f: Field)
    requires Parse(raw).state == Exited(Ok) && i < |Parse(raw).entries|
    ensures var s := Parse(raw).entries[i].Get(f);
            CutsValue(raw, f, s) <==> Inside(raw, s) && Unbroken(f, Cut(raw, s))
  {
    hide Parse;
    var s := Parse(raw).entries[i].Get(f);
    var to := AcceptedFieldEnds(raw, i, f, false);
    hide EndedAt;
    hide ValidValue;
    hide Unbroken;
    if Inside(raw, s) {
      CutIsValue(raw, f, s, to, false);
    }
  }

  lemma CountedSliceIsInside(raw: string, f: Field, s: Slice, to: int)
    requires EndedAt(raw, f, s, to, true)
    ensures 0 <= s.start && s.start + s.characters <= to < |raw|
  {
  }

  lemma CountedSliceIsUnbrokenIff(raw: string, f: Field, s: Slice, to: int)
    requires EndedAt(raw, f, s, to, true)
    ensures Inside(raw, s) && (Unbroken(f, Cut(raw, s)) <==> '\n' !in Cut(raw, s))
  {
    CountedSliceIsInside(raw, f, s, to);
    var cut := Cut(raw, s);
    forall k | 0 <= k < |cut| ensures cut[k] == '\n' || Collects(f, cut[k]) {
      assert cut[k] == raw[s.start + k];
    }
    if Unbroken(f, cut) && f != Text {
      assert IsWhitespace('\n');
    }
    if '\n' !in cut {
      forall k | 0 <= k < |cut| ensures Collects(f, cut[k]) {
        assert cut[k] in cut;
      }
    }
  }

  /** In an accepted file that gives no field a second value, every slice lies in the file. */
  lemma UnrepeatedSlicesAreInside(raw: string, i: nat, f: Field)
    requires Parse(raw).state == Exited(Ok) && i < |Parse(raw).entries| && NeverRepeats(raw, START)
    ensures Inside(raw, Parse(raw).entries[i].Get(f))
  {
    hide Parse;
    hide NeverRepeats;
    var to := AcceptedFieldEnds(raw, i, f, true);
    CountedSliceIsInside(raw, f, Parse(raw).entries[i].Get(f), to);
  }

  /** And it cuts out a value of its field exactly when it holds no newline. */
  lemma UnrepeatedSliceIsValueIff(raw: string, i: nat, f: Field)
    requires Parse(raw).state == Exited(Ok) && i < |Parse(raw).entries| && NeverRepeats(raw, START)
    ensures var s := Parse(raw).entries[i].Get(f);
            Inside(raw, s) && (ValidValue(f, Cut(raw, s)) <==> '\n' !in Cut(raw, s))
  {
    hide Parse;
    hide NeverRepeats;
    var s := Parse(raw).entries[i].Get(f);
    var to := AcceptedFieldEnds(raw, i, f, true);
    CountedSliceIsUnbrokenIff(raw, f, s, to);
    CutIsValue(raw, f, s, to, true);
  }

  // ----- Accepted files that the formatter cannot read -----

  const PLAIN := FieldLayout("", "", "", "")

  /** An entry with one more field behind the usual three: the data identifier again. */
  function RepeatingFile(e: Source, again: string): string {
    "{" + (PrintFields(e, [Data, Length, Text], [PLAIN, PLAIN, PLAIN]) + (PrintField(Data, again, PLAIN) + "}"))
  }

  /** An entry whose text runs over several lines. */
  function LinesFile(data: string, length: string, text: string): string {
    "{" + (PrintFields(Source(data, length, ""), [Data, Length], [PLAIN, PLAIN])
           + (PrintHead(Text, PLAIN) + (("\"" + (text + "\"")) + (";" + "}"))))
  }

  /** The state behind the opening brace of a file that begins with one. */
  const OPENED := Lex(EntryInitial, 1, [EMPTY_ENTRY], 1)

  lemma Opens(raw: string, rest: string)
    requires raw == "{" + rest
    ensures Parse(raw) == Finish(raw, OPENED) && At(raw, 1, rest)
  {
    hide Finish;
    OneCharacter(raw, START);
    assert PushEntry(START.(position := 1)) == OPENED;
  }

  lemma Closes(raw: string, lex: Lex)
    requires lex.Valid() && lex.state == EntryInitial && lex.position + 1 == |raw| && raw[lex.position] == '}'
    requires lex.Top().Complete()
    ensures Finish(raw, lex) == lex.(position := |raw|, state := Exited(Ok))
  {
    hide Finish;
    var closed := lex.(position := |raw|, state := Initial);
    OneCharacter(raw, lex);
    ClosesEntry(lex.(position := |raw|), lex);
    FinishesWell(raw, closed);
  }

  lemma ClosesEntry(behind: Lex, lex: Lex)
    requires lex.Valid() && lex.state == EntryInitial && lex.Top().Complete()
    requires behind == lex.(position := behind.position)
    ensures Consume(behind, '}') == behind.(state := Initial)
  {
  }

  lemma FinishesWell(raw: string, lex: Lex)
    requires lex.Valid() && lex.state == Initial && lex.position == |raw| && lex.entries != []
    ensures Finish(raw, lex) == lex.(state := Exited(Ok))
  {
  }

  lemma PlainLayouts()
    ensures PLAIN.Valid() && Distinct([Data, Length, Text]) && Distinct([Data, Length])
  {
  }

  /** Such a file is accepted, and the slice of the repeated field has room in it only for short identifiers. */
  lemma RepeatedFieldIsInsideIff(e: Source, again: string)
    requires e.Valid() && ValidIdentifier(again)
    ensures var raw := RepeatingFile(e, again);
            && Parse(raw).state == Exited(Ok) && |Parse(raw).entries| == 1
            && Parse(raw).entries[0].data.characters == |e.data| + |again|
            && (Inside(raw, Parse(raw).entries[0].data) <==> |e.data| <= 2)
  {
    var raw := RepeatingFile(e, again);
    var lex' := ReadRepeating(e, again);
    hide *;
    assert |lex'.entries| == 1;
  }

  lemma ReadRepeating(e: Source, again: string) returns (lex': Lex)
    requires e.Valid() && ValidIdentifier(again)
    ensures var raw := RepeatingFile(e, again);
            && Parse(raw) == lex' && lex'.state == Exited(Ok) && |lex'.entries| == 1
            && lex'.entries[0].data.characters == |e.data| + |again|
            && (Inside(raw, lex'.entries[0].data) <==> |e.data| <= 2)
  {
    hide Finish;
    hide PrintFields;
    hide PrintField;
    hide ValueOffset;
    var raw := RepeatingFile(e, again);
    var fields, field := PrintFields(e, [Data, Length, Text], [PLAIN, PLAIN, PLAIN]), PrintField(Data, again, PLAIN);
    Opens(raw, fields + (field + "}"));
    AtSplit(raw, 1, fields, field + "}");
    AtSplit(raw, 1 + |fields|, field, "}");
    PlainLayouts();
    EmptyFields();
    var lex := ReadFields(raw, OPENED, e, [Data, Length, Text], [PLAIN, PLAIN, PLAIN]);
    ReadsCharacters(raw, lex.Top(), e);
    ReadField(raw, lex, Data, |e.data|, again, PLAIN);
    PlainOffset(again);
    WithValueSetsOne(lex, Data, lex.position + ValueOffset(Data, PLAIN), |e.data| + |again|);
    lex' := WithValue(lex, Data, lex.position + ValueOffset(Data, PLAIN), |e.data| + |again|);
    var last := lex'.(position := lex.position + |field|);
    assert last.Top().Complete() by { FieldsMakeComplete(last.Top(), lex.Top()); }
    AtFirst(raw, last.position, "}");
    Closes(raw, last);
    lex' := last.(position := |raw|, state := Exited(Ok));
    assert lex'.entries[0] == last.Top();
  }

  lemma EmptyFields()
    ensures OPENED.Valid() && forall f: Field :: OPENED.Top().Get(f).characters == 0
  {
  }

  lemma ReadsCharacters(raw: string, entry: Entry, e: Source)
    requires e.Valid()
    requires forall f: Field :: f in [Data, Length, Text] ==> Reads(raw, entry.Get(f), e.Value(f))
    ensures entry.data.characters == |e.data| && entry.Complete()
  {
    assert Reads(raw, entry.Get(Data), e.Value(Data));
    assert Reads(raw, entry.Get(Length), e.Value(Length));
    assert Reads(raw, entry.Get(Text), e.Value(Text));
  }

  lemma FieldsMakeComplete(entry: Entry, before: Entry)
    requires before.Complete() && entry.Get(Data).characters > 0
    requires entry.Get(Length) == before.Get(Length) && entry.Get(Text) == before.Get(Text)
    ensures entry.Complete()
  {
  }

  /** A plain field ends with its value and a semicolon. */
  lemma PlainOffset(v: string)
    ensures |PrintField(Data, v, PLAIN)| == ValueOffset(Data, PLAIN) + |v| + 1
  {
    hide NameOf;
  }

  /** A text that is read over several lines is accepted; its slice is a text exactly if it holds no newline. */
  lemma TextOverLinesIsValueIff(data: string, length: string, text: string)
    requires ValidIdentifier(data) && ValidIdentifier(length)
    requires AllTextCharacters(Stripped(text)) && 1 <= |Stripped(text)| <= 255
    ensures var raw := LinesFile(data, length, text);
            && Parse(raw).state == Exited(Ok) && |Parse(raw).entries| == 1
            && Inside(raw, Parse(raw).entries[0].text)
            && Cut(raw, Parse(raw).entries[0].text) == text[..|Stripped(text)|]
            && (CutsValue(raw, Text, Parse(raw).entries[0].text) <==> '\n' !in text[..|Stripped(text)|])
  {
    hide Parse;
    hide LinesFile;
    var raw := LinesFile(data, length, text);
    var p := ReadLines(data, length, text);
    assert raw[p..p + |text|][..|Stripped(text)|] == raw[p..p + |Stripped(text)|];
    TextOfLines(text);
  }

  lemma TextOfLines(text: string)
    requires AllTextCharacters(Stripped(text)) && 1 <= |Stripped(text)| <= 255
    ensures ValidText(text[..|Stripped(text)|]) <==> '\n' !in text[..|Stripped(text)|]
  {
    var n := |Stripped(text)|;
    SliceAcrossLinesIsRightIff(text);
    if '\n' !in text[..n] {
      assert forall i :: 0 <= i < n ==> text[i] == text[..n][i];
    }
  }

  lemma ReadLines(data: string, length: string, text: string) returns (p: nat)
    requires ValidIdentifier(data) && ValidIdentifier(length)
    requires AllTextCharacters(Stripped(text)) && 1 <= |Stripped(text)| <= 255
    ensures var raw := LinesFile(data, length, text);
            && Parse(raw).state == Exited(Ok) && |Parse(raw).entries| == 1
            && Parse(raw).entries[0].text == Slice(p, |Stripped(text)|)
            && At(raw, p, text)
  {
    hide Finish;
    hide PrintFields;
    hide PrintHead;
    hide Stripped;
    var raw, e := LinesFile(data, length, text), Source(data, length, "");
    var fields, head := PrintFields(e, [Data, Length], [PLAIN, PLAIN]), PrintHead(Text, PLAIN);
    var value := "\"" + (text + "\"");
    Opens(raw, fields + (head + (value + (";" + "}"))));
    AtSplit(raw, 1, fields, head + (value + (";" + "}")));
    AtSplit(raw, 1 + |fields|, head, value + (";" + "}"));
    AtSplit(raw, 1 + |fields| + |head|, value, ";" + "}");
    PlainLayouts();
    EmptyFields();
    var lex := ReadTwoFields(raw, e);
    ReadHead(raw, lex, Text, PLAIN);
    var waiting := lex.(position := lex.position + |head|, state := WaitValue(Text));
    p := waiting.position + 1;
    var read := ReadLinesValue(raw, waiting, text);
    Closes(raw, read);
  }

  lemma ReadTwoFields(raw: string, e: Source) returns (lex: Lex)
    requires ValidIdentifier(e.data) && ValidIdentifier(e.length)
    requires At(raw, 1, PrintFields(e, [Data, Length], [PLAIN, PLAIN]))
    ensures lex.position == 1 + |PrintFields(e, [Data, Length], [PLAIN, PLAIN])| <= |raw| && |lex.entries| == 1
    ensures lex.Valid() && lex.state == EntryInitial && Finish(raw, OPENED) == Finish(raw, lex)
    ensures lex.Top().data.characters > 0 && lex.Top().length.characters > 0 && lex.Top().text == UNSET
  {
    hide Finish;
    hide PrintField;
    hide ValueOffset;
    hide Reads;
    PlainLayouts();
    var full := Source(e.data, e.length, "A");
    SameTwoFields(e, full);
    lex := ReadFields(raw, OPENED, full, [Data, Length], [PLAIN, PLAIN]);
    assert Reads(raw, lex.Top().Get(Data), full.Value(Data));
    assert Reads(raw, lex.Top().Get(Length), full.Value(Length));
    ReadsSomething(raw, lex.Top().Get(Data), full.Value(Data));
    ReadsSomething(raw, lex.Top().Get(Length), full.Value(Length));
    assert lex.Top().Get(Text) == OPENED.Top().Get(Text);
  }

  lemma ReadsSomething(raw: string, s: Slice, v: string)
    requires Reads(raw, s, v) && v != ""
    ensures s.characters > 0
  {
  }

  lemma SameTwoFields(e: Source, full: Source)
    requires full.data == e.data && full.length == e.length
    ensures PrintFields(full, [Data, Length], [PLAIN, PLAIN]) == PrintFields(e, [Data, Length], [PLAIN, PLAIN])
  {
    hide PrintField;
    PrintTwoFields(e);
    PrintTwoFields(full);
  }

  lemma PrintTwoFields(e: Source)
    ensures PrintFields(e, [Data, Length], [PLAIN, PLAIN])
         == PrintField(Data, e.data, PLAIN) + PrintField(Length, e.length, PLAIN)
  {
    hide PrintField;
    assert [Data, Length][1..] == [Length] && [PLAIN, PLAIN][1..] == [PLAIN] && [Length][1..] == [];
    assert PrintFields(e, [Length], [PLAIN]) == PrintField(Length, e.length, PLAIN) + "";
  }

  lemma ReadLinesValue(raw: string, lex: Lex, text: string) returns (read: Lex)
    requires lex.Valid() && lex.state == WaitValue(Text) && lex.Top().text.characters == 0
    requires At(raw, lex.position, "\"" + (text + "\"")) && At(raw, lex.position + |text| + 2, ";" + "}")
    requires lex.position + |text| + 4 == |raw| && |lex.entries| == 1
    requires lex.Top().data.characters > 0 && lex.Top().length.characters > 0
    requires AllTextCharacters(Stripped(text)) && 1 <= |Stripped(text)| <= 255
    ensures read.Valid() && read.state == EntryInitial && read.position + 1 == |raw| && raw[read.position] == '}'
    ensures |read.entries| == 1 && read.Top().Complete() && Finish(raw, lex) == Finish(raw, read)
    ensures read.Top().text == Slice(lex.position + 1, |Stripped(text)|) && At(raw, lex.position + 1, text)
  {
    hide Finish;
    hide Consume;
    hide Longer;
    hide Stripped;
    var p, n := lex.position, |Stripped(text)|;
    AtSplit(raw, p, "\"", text + "\"");
    AtSplit(raw, p + 1, text, "\"");
    AtFirst(raw, p, "\"");
    OneCharacter(raw, lex);
    StartsText(lex.(position := p + 1));
    var inside := lex.(position := p + 1, state := ValueText);
    ReadTextAcrossLines(raw, WithValue(inside, Text, p + 1, 0), text);
    LongerValue(inside.(position := p + 1 + |text|), Text, p + 1, 0, n);
    read := WithValue(inside.(position := p + 1 + |text|), Text, p + 1, n);
    AtFirst(raw, p + 1 + |text|, "\"");
    OneCharacter(raw, read);
    EndsText(read.(position := p + |text| + 2));
    read := read.(position := p + |text| + 2, state := WaitNewline);
    AtSplit(raw, p + |text| + 2, ";", "}");
    AtFirst(raw, p + |text| + 2, ";");
    OneCharacter(raw, read);
    SemicolonEnds(read.(position := p + |text| + 3));
    AtFirst(raw, p + |text| + 3, "}");
    read := read.(position := p + |text| + 3, state := EntryInitial);
  }

  lemma SemicolonEnds(lex: Lex)
    requires lex.Valid() && lex.state == WaitNewline
    ensures Consume(lex, ';') == lex.Go(EntryInitial)
  {
  }

  /** The two files of the smallest kind: both are accepted, and neither can be formatted. */
  lemma AcceptedFilesFail()
    ensures var raw := LinesFile("a", "b", "A\nB");
            && Parse(raw).state == Exited(Ok) && |Parse(raw).entries| == 1
            && !CutsValue(raw, Text, Parse(raw).entries[0].text)
    ensures var raw := RepeatingFile(Source("aaa", "b", "A"), "c");
            && Parse(raw).state == Exited(Ok) && |Parse(raw).entries| == 1
            && !Inside(raw, Parse(raw).entries[0].data)
  {
    hide Parse;
    hide LinesFile;
    hide RepeatingFile;
    assert Stripped("A\nB") == "AB" by { StrippedPair(); }
    assert "A\nB"[..2][1] == '\n';
    TextOverLinesIsValueIff("a", "b", "A\nB");
    RepeatedFieldIsInsideIff(Source("aaa", "b", "A"), "c");
  }

  lemma StrippedPair()
    ensures Stripped("A\nB") == "AB"
  {
    assert "A\nB"[1..] == "\nB" && "\nB"[1..] == "B" && "B"[1..] == "";
  }
}
