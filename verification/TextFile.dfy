/**
 String files as they are written (boot/src/tux64-boot/stage1/strings.txt shows one), and
 the proof that the lexer reads back what was printed, with any whitespace between tokens.
 */
module TextFile {
  import opened Arithmetic
  import opened Lexer
  import opened Strings

  // ----- Reading along a known text -----

  /** The file holds `part` at `p`. */
  predicate At(raw: string, p: nat, part: string) {
    p + |part| <= |raw| && raw[p..p + |part|] == part
  }

  lemma AtSplit(raw: string, p: nat, a: string, b: string)
    requires At(raw, p, a + b)
    ensures At(raw, p, a) && At(raw, p + |a|, b)
  {
    assert raw[p..p + |a|] == (a + b)[..|a|];
    assert raw[p + |a|..p + |a| + |b|] == (a + b)[|a|..];
  }

  lemma AtFirst(raw: string, p: nat, part: string)
    requires At(raw, p, part) && part != ""
    ensures raw[p] == part[0] && At(raw, p + 1, part[1..])
  {
    assert part == [part[0]] + part[1..];
    AtSplit(raw, p, [part[0]], part[1..]);
  }

  /** A newline makes no difference to any state function. */
  lemma NewlineIsInvisible(raw: string, lex: Lex)
    requires lex.Valid() && lex.position < |raw| && raw[lex.position] == '\n' && !lex.state.Exited?
    ensures Finish(raw, lex) == Finish(raw, lex.(position := lex.position + 1))
  {
    assert Step(raw, lex) == Step(raw, lex.(position := lex.position + 1));
  }

  lemma OneCharacter(raw: string, lex: Lex)
    requires lex.Valid() && lex.position < |raw| && raw[lex.position] != '\n' && !lex.state.Exited?
    ensures Finish(raw, lex) == Finish(raw, Consume(lex.(position := lex.position + 1), raw[lex.position]))
  {
  }

  predicate Skips(s: State) {
    s.Initial? || s.EntryInitial? || s.WaitSeparator? || s.WaitValue? || s.WaitNewline?
  }

  lemma SkipsOver(lex: Lex, c: char)
    requires lex.Valid() && Skips(lex.state) && IsWhitespace(c)
    ensures Consume(lex, c) == lex
  {
  }

  lemma {:induction false} SkipWhitespace(raw: string, lex: Lex, w: string)
    requires lex.Valid() && Skips(lex.state) && At(raw, lex.position, w) && AllWhitespace(w)
    ensures Finish(raw, lex) == Finish(raw, lex.(position := lex.position + |w|))
    decreases |w|
  {
    hide Finish;
    hide Consume;
    if w != "" {
      AtFirst(raw, lex.position, w);
      if w[0] == '\n' {
        NewlineIsInvisible(raw, lex);
      } else {
        OneCharacter(raw, lex);
        SkipsOver(lex.(position := lex.position + 1), w[0]);
      }
      SkipWhitespace(raw, lex.(position := lex.position + 1), w[1..]);
    }
  }

  // ----- Field names -----

  function NameOf(f: Field): string {
    match f case Data => "identifier_data" case Length => "identifier_length" case Text => "text"
  }

  function HashOf(f: Field): bv32 {
    match f case Data => HASH_IDENTIFIER_DATA case Length => HASH_IDENTIFIER_LENGTH case Text => HASH_TEXT
  }

  lemma HashStep(v: bv32, name: string, c: char, rest: string, next: bv32)
    requires name == [c] + rest && next == DigestHash(v, c)
    ensures HashFrom(v, name) == HashFrom(next, rest)
  {
    assert name[1..] == rest;
  }

  lemma HashDone(v: bv32)
    ensures HashFrom(v, "") == v
  {
  }

  lemma HashOfText()
    ensures HashFrom(0, "text") == HASH_TEXT
  {
    hide HashFrom;
    HashStep(0, "text", 't', "ext", 0x74);
    HashStep(0x74, "ext", 'e', "xt", 0x7465);
    HashStep(0x7465, "xt", 'x', "t", 0x74_6578);
    HashStep(0x74_6578, "t", 't', "", HASH_TEXT);
    HashDone(HASH_TEXT);
  }

  /** Both long names begin alike. */
  lemma HashOfIdentifier(rest: string)
    ensures HashFrom(0, "identifier_" + rest) == HashFrom(0x0778_7f5c, rest)
  {
    hide HashFrom;
    HashOfIdent(rest);
    HashStep(0x6465_6e1d, "ifier_" + rest, 'i', "fier_" + rest, 0x656e_1d0d);
    HashStep(0x656e_1d0d, "fier_" + rest, 'f', "ier_" + rest, 0x6e1d_0d03);
    HashStep(0x6e1d_0d03, "ier_" + rest, 'i', "er_" + rest, 0x1d0d_0307);
    HashStep(0x1d0d_0307, "er_" + rest, 'e', "r_" + rest, 0x0d03_0778);
    HashStep(0x0d03_0778, "r_" + rest, 'r', "_" + rest, 0x0307_787f);
    HashStep(0x0307_787f, "_" + rest, '_', rest, 0x0778_7f5c);
  }

  lemma HashOfIdent(rest: string)
    ensures HashFrom(0, "identifier_" + rest) == HashFrom(0x6465_6e1d, "ifier_" + rest)
  {
    hide HashFrom;
    HashStep(0, "identifier_" + rest, 'i', "dentifier_" + rest, 0x69);
    HashStep(0x69, "dentifier_" + rest, 'd', "entifier_" + rest, 0x6964);
    HashStep(0x6964, "entifier_" + rest, 'e', "ntifier_" + rest, 0x69_6465);
    HashStep(0x69_6465, "ntifier_" + rest, 'n', "tifier_" + rest, 0x6964_656e);
    HashStep(0x6964_656e, "tifier_" + rest, 't', "ifier_" + rest, 0x6465_6e1d);
  }

  lemma HashOfData()
    ensures HashFrom(0, "identifier_data") == HASH_IDENTIFIER_DATA
  {
    hide HashFrom;
    HashOfIdentifier("data");
    assert "identifier_" + "data" == "identifier_data";
    HashStep(0x0778_7f5c, "data", 'd', "ata", 0x787f_5c63);
    HashStep(0x787f_5c63, "ata", 'a', "ta", 0x7f5c_6319);
    HashStep(0x7f5c_6319, "ta", 't', "a", 0x5c63_190b);
    HashStep(0x5c63_190b, "a", 'a', "", HASH_IDENTIFIER_DATA);
    HashDone(HASH_IDENTIFIER_DATA);
  }

  lemma HashOfLength()
    ensures HashFrom(0, "identifier_length") == HASH_IDENTIFIER_LENGTH
  {
    hide HashFrom;
    HashOfIdentifier("length");
    assert "identifier_" + "length" == "identifier_length";
    HashStep(0x0778_7f5c, "length", 'l', "ength", 0x787f_5c6b);
    HashStep(0x787f_5c6b, "ength", 'e', "ngth", 0x7f5c_6b1d);
    HashStep(0x7f5c_6b1d, "ngth", 'n', "gth", 0x5c6b_1d11);
    HashStep(0x5c6b_1d11, "gth", 'g', "th", 0x6b1d_113b);
    HashStep(0x6b1d_113b, "th", 't', "h", 0x1d11_3b1f);
    HashStep(0x1d11_3b1f, "h", 'h', "", HASH_IDENTIFIER_LENGTH);
    HashDone(HASH_IDENTIFIER_LENGTH);
  }

  /** The hard-coded constants are the hashes of the three field names. */
  lemma NamesReachTheirCases(f: Field)
    ensures HashFrom(0, NameOf(f)) == HashOf(f)
  {
    match f
    case Data => HashOfData();
    case Length => HashOfLength();
    case Text => HashOfText();
  }

  /** Names are told apart by their hash alone, so other names reach the cases as well. */
  lemma OtherNamesReachThemToo()
    ensures HashFrom(0, "ETIE1111") == HASH_TEXT
  {
    hide HashFrom;
    HashStep(0, "ETIE1111", 'E', "TIE1111", 0x45);
    HashStep(0x45, "TIE1111", 'T', "IE1111", 0x4554);
    HashStep(0x4554, "IE1111", 'I', "E1111", 0x45_5449);
    HashStep(0x45_5449, "E1111", 'E', "1111", 0x4554_4945);
    HashStep(0x4554_4945, "1111", '1', "111", 0x5449_4574);
    HashStep(0x5449_4574, "111", '1', "11", 0x4945_7465);
    HashStep(0x4945_7465, "11", '1', "1", 0x4574_6578);
    HashStep(0x4574_6578, "1", '1', "", HASH_TEXT);
    HashDone(HASH_TEXT);
  }

  // ----- Which names share a hash -----

  /** Every fourth character from the end, counted from the `k`-th last, combined by exclusive or. */
  function Column(name: string, k: nat): bv8
    decreases |name| - k
  {
    if k >= |name| then 0 else ByteOf(name[|name| - 1 - k]) ^ Column(name, k + 4)
  }

  function Packed(a: bv8, b: bv8, c: bv8, d: bv8): bv32 {
    (a as bv32 << 24) | (b as bv32 << 16) | (c as bv32 << 8) | d as bv32
  }

  function Columns(name: string): bv32 {
    Packed(Column(name, 3), Column(name, 2), Column(name, 1), Column(name, 0))
  }

  lemma PackedShifts(a: bv8, b: bv8, c: bv8, d: bv8, next: char)
    ensures DigestHash(Packed(a, b, c, d), next) == Packed(b, c, d, ByteOf(next) ^ a)
  {
    hide ByteOf;
    var x := ByteOf(next);
  }

  lemma PackedIsInjective(a: bv8, b: bv8, c: bv8, d: bv8, a': bv8, b': bv8, c': bv8, d': bv8)
    requires Packed(a, b, c, d) == Packed(a', b', c', d')
    ensures a == a' && b == b' && c == c' && d == d'
  {
  }

  lemma {:induction false} HashOfLonger(v: bv32, name: string, c: char)
    ensures HashFrom(v, name + [c]) == DigestHash(HashFrom(v, name), c)
    decreases |name|
  {
    hide DigestHash;
    if name == "" {
      assert (name + [c])[1..] == "";
    } else {
      HashOfLonger(DigestHash(v, name[0]), name[1..], c);
      assert (name + [c])[1..] == name[1..] + [c];
    }
  }

  lemma {:induction false} ColumnOfLonger(name: string, c: char, k: nat)
    ensures Column(name + [c], k + 1) == Column(name, k)
    decreases |name| - k
  {
    if k < |name| {
      ColumnOfLonger(name, c, k + 4);
    }
  }

  /** The hash of any name is its four columns: nothing else of the name goes into it. */
  lemma {:induction false} HashIsColumns(name: string)
    ensures HashFrom(0, name) == Columns(name)
  {
    hide Packed;
    hide DigestHash;
    NothingIsPacked();
    if name != "" {
      var n := |name| - 1;
      var front, c := name[..n], name[n];
      assert name == front + [c];
      HashIsColumns(front);
      HashOfLonger(0, front, c);
      ColumnOfLonger(front, c, 0);
      ColumnOfLonger(front, c, 1);
      ColumnOfLonger(front, c, 2);
      ColumnOfLonger(front, c, 3);
      PackedShifts(Column(front, 3), Column(front, 2), Column(front, 1), Column(front, 0), c);
    }
  }

  lemma NothingIsPacked()
    ensures Packed(0, 0, 0, 0) == 0
  {
  }

  ghost predicate SameColumns(name: string, other: string) {
    forall k: nat :: k < 4 ==> Column(name, k) == Column(other, k)
  }

  /** Two names are taken for each other exactly when their columns agree. */
  lemma SameHashIff(name: string, other: string)
    ensures HashFrom(0, name) == HashFrom(0, other) <==> SameColumns(name, other)
  {
    hide Packed;
    hide Column;
    HashIsColumns(name);
    HashIsColumns(other);
    if Columns(name) == Columns(other) {
      PackedIsInjective(Column(name, 3), Column(name, 2), Column(name, 1), Column(name, 0),
                        Column(other, 3), Column(other, 2), Column(other, 1), Column(other, 0));
    }
    assert SameColumns(name, other) <==>
           && Column(name, 0) == Column(other, 0) && Column(name, 1) == Column(other, 1)
           && Column(name, 2) == Column(other, 2) && Column(name, 3) == Column(other, 3);
  }

  /** The characters of a file are bytes. */
  function Chars(bytes: seq<bv8>): (name: string)
    ensures |name| == |bytes| && forall i :: 0 <= i < |name| ==> name[i] == bytes[i] as char
  {
    seq(|bytes|, i requires 0 <= i < |bytes| => bytes[i] as char)
  }

  lemma ByteOfChar(b: bv8)
    ensures ByteOf(b as char) == b
  {
  }

  /** Of the names of at most `n` characters, only the documented one can select the field. */
  ghost predicate ToldApart(f: Field, n: nat) {
    forall bytes: seq<bv8> ::
      |bytes| <= n && AllNameCharacters(Chars(bytes)) && HashFrom(0, Chars(bytes)) == HashOf(f) ==>
        Chars(bytes) == NameOf(f)
  }

  function SafeLength(f: Field): nat {
    match f case Text => 4 case Data => 5 case Length => 6
  }

  function Impostor(f: Field): string {
    match f case Text => "Atex5" case Data => "aac\U{19}j\\" case Length => "aaA\U{11}Z~4"
  }

  function ImpostorBytes(f: Field): seq<bv8> {
    match f
    case Text => [0x41, 0x74, 0x65, 0x78, 0x35]
    case Data => [0x61, 0x61, 0x63, 0x19, 0x6a, 0x5c]
    case Length => [0x61, 0x61, 0x41, 0x11, 0x5a, 0x7e, 0x34]
  }

  lemma ImpostorsPass(f: Field)
    ensures |ImpostorBytes(f)| == SafeLength(f) + 1 && Chars(ImpostorBytes(f)) == Impostor(f)
    ensures AllNameCharacters(Impostor(f)) && Impostor(f) != NameOf(f)
    ensures HashFrom(0, Impostor(f)) == HashOf(f)
  {
    hide HashFrom;
    match f
    case Text => TextImpostorPasses();
    case Data => DataImpostorPasses();
    case Length => LengthImpostorPasses();
  }

  lemma TextImpostorPasses()
    ensures HashFrom(0, "Atex5") == HASH_TEXT
  {
    hide HashFrom;
    HashStep(0, "Atex5", 'A', "tex5", 0x41);
    HashStep(0x41, "tex5", 't', "ex5", 0x4174);
    HashStep(0x4174, "ex5", 'e', "x5", 0x41_7465);
    HashStep(0x41_7465, "x5", 'x', "5", 0x4174_6578);
    HashStep(0x4174_6578, "5", '5', "", HASH_TEXT);
    HashDone(HASH_TEXT);
  }

  lemma DataImpostorPasses()
    ensures HashFrom(0, "aac\U{19}j\\") == HASH_IDENTIFIER_DATA
  {
    hide HashFrom;
    HashStep(0, "aac\U{19}j\\", 'a', "ac\U{19}j\\", 0x61);
    HashStep(0x61, "ac\U{19}j\\", 'a', "c\U{19}j\\", 0x6161);
    HashStep(0x6161, "c\U{19}j\\", 'c', "\U{19}j\\", 0x61_6163);
    HashStep(0x61_6163, "\U{19}j\\", '\U{19}', "j\\", 0x6161_6319);
    HashStep(0x6161_6319, "j\\", 'j', "\\", 0x6163_190b);
    HashStep(0x6163_190b, "\\", '\\', "", HASH_IDENTIFIER_DATA);
    HashDone(HASH_IDENTIFIER_DATA);
  }

  lemma LengthImpostorPasses()
    ensures HashFrom(0, "aaA\U{11}Z~4") == HASH_IDENTIFIER_LENGTH
  {
    hide HashFrom;
    HashStep(0, "aaA\U{11}Z~4", 'a', "aA\U{11}Z~4", 0x61);
    HashStep(0x61, "aA\U{11}Z~4", 'a', "A\U{11}Z~4", 0x6161);
    HashStep(0x6161, "A\U{11}Z~4", 'A', "\U{11}Z~4", 0x61_6141);
    HashStep(0x61_6141, "\U{11}Z~4", '\U{11}', "Z~4", 0x6161_4111);
    HashStep(0x6161_4111, "Z~4", 'Z', "~4", 0x6141_113b);
    HashStep(0x6141_113b, "~4", '~', "4", 0x4111_3b1f);
    HashStep(0x4111_3b1f, "4", '4', "", HASH_IDENTIFIER_LENGTH);
    HashDone(HASH_IDENTIFIER_LENGTH);
  }

  /** In a short name, a column is a single character. */
  lemma ShortColumn(name: string, k: nat)
    requires k < |name| <= k + 4
    ensures Column(name, k) == ByteOf(name[|name| - 1 - k])
  {
  }

  lemma HashOfFieldSplits(f: Field, name: string)
    requires HashFrom(0, name) == HashOf(f)
    ensures Column(name, 3) == if f == Data then 0x63 else if f == Length then 0x11 else 0x74
    ensures Column(name, 2) == if f == Data then 0x19 else if f == Length then 0x3b else 0x65
    ensures Column(name, 1) == if f == Data then 0x0b else if f == Length then 0x1f else 0x78
    ensures Column(name, 0) == if f == Data then 0x3d else if f == Length then 0x75 else 0x74
  {
    hide Column;
    HashIsColumns(name);
    assert Packed(0x63, 0x19, 0x0b, 0x3d) == HASH_IDENTIFIER_DATA;
    assert Packed(0x11, 0x3b, 0x1f, 0x75) == HASH_IDENTIFIER_LENGTH;
    assert Packed(0x74, 0x65, 0x78, 0x74) == HASH_TEXT;
    hide Packed;
    var a, b, c, d := Column(name, 3), Column(name, 2), Column(name, 1), Column(name, 0);
    match f
    case Data => PackedIsInjective(a, b, c, d, 0x63, 0x19, 0x0b, 0x3d);
    case Length => PackedIsInjective(a, b, c, d, 0x11, 0x3b, 0x1f, 0x75);
    case Text => PackedIsInjective(a, b, c, d, 0x74, 0x65, 0x78, 0x74);
  }

  lemma ShortColumnIsByte(bytes: seq<bv8>, k: nat)
    requires k < |bytes| <= k + 4
    ensures Column(Chars(bytes), k) == bytes[|bytes| - 1 - k]
  {
    hide Column;
    hide ByteOf;
    ShortColumn(Chars(bytes), k);
    ByteOfChar(bytes[|bytes| - 1 - k]);
  }

  /** The other two constants contain a byte that ends a name: a whitespace and a semicolon. */
  lemma ShortNamesAreToldApart(f: Field, bytes: seq<bv8>)
    requires |bytes| <= SafeLength(f) && AllNameCharacters(Chars(bytes)) && HashFrom(0, Chars(bytes)) == HashOf(f)
    ensures Chars(bytes) == NameOf(f)
  {
    var name := Chars(bytes);
    assert |name| <= 3 ==> Column(name, 3) == 0;
    assert !IsNameCharacter(0x0b as bv8 as char) && !IsNameCharacter(0x3b as bv8 as char);
    HashOfFieldSplits(f, name);
    hide HashFrom;
    hide Column;
    match f
    case Data =>
      ShortColumnIsByte(bytes, 1);
    case Length =>
      ShortColumnIsByte(bytes, 2);
    case Text =>
      ShortColumnIsByte(bytes, 3);
      ShortColumnIsByte(bytes, 2);
      ShortColumnIsByte(bytes, 1);
      ShortColumnIsByte(bytes, 0);
  }

  /** Names are told apart by their hash alone; that is safe up to four, five and six characters, and no further. */
  lemma NamesAreToldApartIff(f: Field, n: nat)
    ensures ToldApart(f, n) <==> n <= SafeLength(f)
  {
    hide HashFrom;
    hide Impostor;
    hide ImpostorBytes;
    hide AllNameCharacters;
    if n <= SafeLength(f) {
      forall bytes: seq<bv8> |
        |bytes| <= n && AllNameCharacters(Chars(bytes)) && HashFrom(0, Chars(bytes)) == HashOf(f)
        ensures Chars(bytes) == NameOf(f)
      {
        ShortNamesAreToldApart(f, bytes);
      }
    } else {
      ImpostorsPass(f);
    }
  }

  // ----- Tokens -----

  predicate IsNameCharacter(c: char) {
    !IsWhitespace(c) && c !in {'{', '}', '/', '*', '.', '\"', ';', '='}
  }

  predicate AllNameCharacters(name: string) {
    forall i :: 0 <= i < |name| ==> IsNameCharacter(name[i])
  }

  lemma NamesAreNames(f: Field)
    ensures AllNameCharacters(NameOf(f))
  {
  }

  lemma DigestsName(lex: Lex, c: char)
    requires lex.Valid() && lex.state.EntryIdentifier? && IsNameCharacter(c)
    ensures Consume(lex, c) == lex.Go(EntryIdentifier(DigestHash(lex.state.hash, c)))
  {
  }

  lemma {:induction false} ReadName(raw: string, lex: Lex, name: string)
    requires lex.Valid() && lex.state.EntryIdentifier? && At(raw, lex.position, name) && AllNameCharacters(name)
    ensures Finish(raw, lex)
         == Finish(raw, lex.(position := lex.position + |name|, state := EntryIdentifier(HashFrom(lex.state.hash,
             name))))
    decreases |name|
  {
    hide Finish;
    hide Consume;
    hide DigestHash;
    if name != "" {
      AtFirst(raw, lex.position, name);
      OneCharacter(raw, lex);
      var lex' := lex.(position := lex.position + 1);
      DigestsName(lex', name[0]);
      ReadName(raw, lex'.Go(EntryIdentifier(DigestHash(lex.state.hash, name[0]))), name[1..]);
    }
  }

  lemma NameIsKnown(lex: Lex, f: Field, c: char)
    requires lex.Valid() && lex.state == EntryIdentifier(HashOf(f)) && (IsWhitespace(c) || c == '=')
    ensures Consume(lex, c) == lex.Go(if c == '=' then WaitValue(f) else WaitSeparator(f))
  {
  }

  /** Whitespace between the name and the separator ends the name just as the separator does. */
  lemma {:induction false} EndName(raw: string, lex: Lex, f: Field, w: string)
    requires lex.Valid() && lex.state == EntryIdentifier(HashOf(f))
    requires At(raw, lex.position, w + "=") && AllWhitespace(w)
    ensures Finish(raw, lex) == Finish(raw, lex.(position := lex.position + |w| + 1, state := WaitValue(f)))
    decreases |w|
  {
    hide Finish;
    hide Consume;
    hide HashOf;
    AtFirst(raw, lex.position, w + "=");
    var lex' := lex.(position := lex.position + 1);
    if w == "" {
      OneCharacter(raw, lex);
      NameIsKnown(lex', f, '=');
    } else {
      assert (w + "=")[1..] == w[1..] + "=";
      if w[0] == '\n' {
        NewlineIsInvisible(raw, lex);
        EndName(raw, lex', f, w[1..]);
      } else {
        OneCharacter(raw, lex);
        NameIsKnown(lex', f, w[0]);
        WaitForSeparator(raw, lex'.Go(WaitSeparator(f)), f, w[1..]);
      }
    }
  }

  lemma WaitForSeparator(raw: string, lex: Lex, f: Field, w: string)
    requires lex.Valid() && lex.state == WaitSeparator(f)
    requires At(raw, lex.position, w + "=") && AllWhitespace(w)
    ensures Finish(raw, lex) == Finish(raw, lex.(position := lex.position + |w| + 1, state := WaitValue(f)))
  {
    hide Finish;
    AtSplit(raw, lex.position, w, "=");
    SkipWhitespace(raw, lex, w);
    AtFirst(raw, lex.position + |w|, "=");
    OneCharacter(raw, lex.(position := lex.position + |w|));
  }

  // ----- Values -----

  predicate IsIdentifierCharacter(c: char) {
    !IsWhitespace(c) && c !in {'{', '}', '/', '*', '\"', ';'}
  }

  predicate AllIdentifierCharacters(s: string) {
    forall i :: 0 <= i < |s| ==> IsIdentifierCharacter(s[i])
  }

  predicate ValidIdentifier(s: string) {
    s != "" && s[0] != '.' && AllIdentifierCharacters(s)
  }

  predicate AllTextCharacters(s: string) {
    forall i :: 0 <= i < |s| ==> IsTextCharacter(s[i])
  }

  predicate ValidText(s: string) {
    1 <= |s| <= 255 && AllTextCharacters(s)
  }

  /** The entry being read, with a longer slice in one field. */
  function Longer(lex: Lex, f: Field, n: nat): Lex
    requires lex.entries != []
  {
    var s := lex.Top().Get(f);
    lex.WithTop(lex.Top().With(f, s.(characters := s.characters + n)))
  }

  lemma LongerTwice(lex: Lex, f: Field, n: nat)
    requires lex.entries != []
    ensures Longer(Longer(lex, f, 1), f, n) == Longer(lex, f, n + 1)
    ensures Longer(lex, f, 0) == lex
  {
    var e := lex.Top();
    assert e.With(f, e.Get(f)) == e;
  }

  lemma CollectsIdentifier(lex: Lex, f: Field, c: char)
    requires lex.Valid() && lex.state == ValueIdentifier(f) && IsIdentifierCharacter(c)
    ensures Consume(lex, c) == Longer(lex, f, 1)
  {
  }

  lemma {:induction false} ReadIdentifier(raw: string, lex: Lex, f: Field, s: string)
    requires lex.Valid() && lex.state == ValueIdentifier(f) && At(raw, lex.position, s) && AllIdentifierCharacters(s)
    ensures Finish(raw, lex) == Finish(raw, Longer(lex.(position := lex.position + |s|), f, |s|))
    decreases |s|
  {
    hide Finish;
    hide Consume;
    LongerTwice(lex.(position := lex.position + |s|), f, if s == "" then 0 else |s| - 1);
    if s != "" {
      AtFirst(raw, lex.position, s);
      OneCharacter(raw, lex);
      var lex' := lex.(position := lex.position + 1);
      CollectsIdentifier(lex', f, s[0]);
      ReadIdentifier(raw, Longer(lex', f, 1), f, s[1..]);
      assert Longer(lex', f, 1).(position := lex.position + |s|) == Longer(lex.(position := lex.position + |s|), f, 1);
    }
  }

  lemma CollectsText(lex: Lex, c: char)
    requires lex.Valid() && lex.state == ValueText && IsTextCharacter(c) && lex.Top().text.characters < 255
    ensures Consume(lex, c) == Longer(lex, Text, 1)
  {
  }

  lemma {:induction false} ReadText(raw: string, lex: Lex, s: string)
    requires lex.Valid() && lex.state == ValueText && At(raw, lex.position, s) && AllTextCharacters(s)
    requires lex.Top().text.characters + |s| <= 255
    ensures Finish(raw, lex) == Finish(raw, Longer(lex.(position := lex.position + |s|), Text, |s|))
    decreases |s|
  {
    hide Finish;
    hide Consume;
    LongerTwice(lex.(position := lex.position + |s|), Text, if s == "" then 0 else |s| - 1);
    if s != "" {
      AtFirst(raw, lex.position, s);
      OneCharacter(raw, lex);
      var lex' := lex.(position := lex.position + 1);
      CollectsText(lex', s[0]);
      ReadText(raw, Longer(lex', Text, 1), s[1..]);
      assert Longer(lex', Text, 1).(position := lex.position + |s|) == Longer(lex.(position := lex.position + |s|),
          Text, 1);
    }
  }

  /** What the state machine sees of a text. */
  function Stripped(s: string): (r: string)
    ensures |r| <= |s| && forall i :: 0 <= i < |r| ==> r[i] != '\n'
  {
    if s == "" then "" else if s[0] == '\n' then Stripped(s[1..]) else [s[0]] + Stripped(s[1..])
  }

  lemma {:induction false} ReadTextAcrossLines(raw: string, lex: Lex, s: string)
    requires lex.Valid() && lex.state == ValueText && At(raw, lex.position, s) && AllTextCharacters(Stripped(s))
    requires lex.Top().text.characters + |Stripped(s)| <= 255
    ensures Finish(raw, lex) == Finish(raw, Longer(lex.(position := lex.position + |s|), Text, |Stripped(s)|))
    decreases |s|
  {
    hide Finish;
    hide Consume;
    LongerTwice(lex.(position := lex.position + |s|), Text, if Stripped(s) == "" then 0 else |Stripped(s)| - 1);
    if s != "" {
      AtFirst(raw, lex.position, s);
      var lex' := lex.(position := lex.position + 1);
      if s[0] == '\n' {
        NewlineIsInvisible(raw, lex);
        ReadTextAcrossLines(raw, lex', s[1..]);
      } else {
        assert Stripped(s)[0] == s[0] && Stripped(s)[1..] == Stripped(s[1..]);
        OneCharacter(raw, lex);
        CollectsText(lex', s[0]);
        ReadTextAcrossLines(raw, Longer(lex', Text, 1), s[1..]);
        assert Longer(lex', Text, 1).(position := lex.position + |s|) == Longer(lex.(position := lex.position + |s|),
            Text, 1);
      }
    }
  }

  lemma {:induction false} StrippedPrefix(s: string, m: nat)
    requires m <= |s| && forall i :: 0 <= i < m ==> s[i] != '\n'
    ensures m <= |Stripped(s)| && Stripped(s)[..m] == s[..m]
  {
    if m > 0 {
      StrippedPrefix(s[1..], m - 1);
    }
  }

  /**
   A text that runs over several lines is collected without its newlines but sliced with
   them. The slice is right exactly when no newline falls within its length.
   */
  lemma SliceAcrossLinesIsRightIff(s: string)
    ensures s[..|Stripped(s)|] == Stripped(s) <==> forall i :: 0 <= i < |Stripped(s)| ==> s[i] != '\n'
  {
    var m := |Stripped(s)|;
    if forall i :: 0 <= i < m ==> s[i] != '\n' {
      StrippedPrefix(s, m);
    } else {
      var i :| 0 <= i < m && s[i] == '\n';
      assert s[..m][i] == '\n';
    }
  }

  lemma IdentifierIsOver(lex: Lex, f: Field, c: char)
    requires lex.Valid() && lex.state == ValueIdentifier(f) && lex.Top().Get(f).characters > 0
             && (IsWhitespace(c) || c == ';')
    ensures Consume(lex, c) == lex.Go(if c == ';' then EntryInitial else WaitNewline)
  {
  }

  lemma WaitForSemicolon(raw: string, lex: Lex, w: string)
    requires lex.Valid() && lex.state == WaitNewline
    requires At(raw, lex.position, w + ";") && AllWhitespace(w)
    ensures Finish(raw, lex) == Finish(raw, lex.(position := lex.position + |w| + 1, state := EntryInitial))
  {
    hide Finish;
    AtSplit(raw, lex.position, w, ";");
    SkipWhitespace(raw, lex, w);
    AtFirst(raw, lex.position + |w|, ";");
    OneCharacter(raw, lex.(position := lex.position + |w|));
  }

  lemma {:induction false} EndIdentifier(raw: string, lex: Lex, f: Field, w: string)
    requires lex.Valid() && lex.state == ValueIdentifier(f) && lex.Top().Get(f).characters > 0
    requires At(raw, lex.position, w + ";") && AllWhitespace(w)
    ensures Finish(raw, lex) == Finish(raw, lex.(position := lex.position + |w| + 1, state := EntryInitial))
    decreases |w|
  {
    hide Finish;
    hide Consume;
    AtFirst(raw, lex.position, w + ";");
    var lex' := lex.(position := lex.position + 1);
    if w == "" {
      OneCharacter(raw, lex);
      IdentifierIsOver(lex', f, ';');
    } else {
      assert (w + ";")[1..] == w[1..] + ";";
      if w[0] == '\n' {
        NewlineIsInvisible(raw, lex);
        EndIdentifier(raw, lex', f, w[1..]);
      } else {
        OneCharacter(raw, lex);
        IdentifierIsOver(lex', f, w[0]);
        WaitForSemicolon(raw, lex'.Go(WaitNewline), w[1..]);
      }
    }
  }

  // ----- Fields -----

  /** The whitespace around the tokens of a field. */
  datatype FieldLayout = FieldLayout(beforeEquals: string, afterEquals: string, beforeSemicolon: string,
                                     after: string) {
    predicate Valid() {
      AllWhitespace(beforeEquals) && AllWhitespace(afterEquals) && AllWhitespace(beforeSemicolon)
          && AllWhitespace(after)
    }
  }

  predicate ValidValue(f: Field, v: string) {
    if f == Text then ValidText(v) else ValidIdentifier(v)
  }

  function Quoted(f: Field, v: string): string {
    if f == Text then "\"" + (v + "\"") else v
  }

  function PrintHead(f: Field, l: FieldLayout): string {
    "." + (NameOf(f) + (l.beforeEquals + "="))
  }

  function PrintTail(f: Field, v: string, l: FieldLayout): string {
    l.afterEquals + (Quoted(f, v) + (l.beforeSemicolon + ";"))
  }

  function PrintField(f: Field, v: string, l: FieldLayout): string {
    PrintHead(f, l) + (PrintTail(f, v, l) + l.after)
  }

  lemma ReadHead(raw: string, lex: Lex, f: Field, l: FieldLayout)
    requires lex.Valid() && lex.state == EntryInitial && l.Valid() && At(raw, lex.position, PrintHead(f, l))
    ensures Finish(raw, lex) == Finish(raw, lex.(position := lex.position + |PrintHead(f, l)|, state := WaitValue(f)))
  {
    hide Finish;
    hide HashFrom;
    hide NameOf;
    var name, p := NameOf(f), lex.position;
    AtSplit(raw, p, ".", name + (l.beforeEquals + "="));
    AtFirst(raw, p, ".");
    OneCharacter(raw, lex);
    var inName := lex.(position := p + 1, state := EntryIdentifier(0));
    AtSplit(raw, p + 1, name, l.beforeEquals + "=");
    NamesAreNames(f);
    ReadName(raw, inName, name);
    NamesReachTheirCases(f);
    EndName(raw, inName.(position := p + 1 + |name|, state := EntryIdentifier(HashOf(f))), f, l.beforeEquals);
  }

  /** The value of a field set to the slice that starts at `start`. */
  function WithValue(lex: Lex, f: Field, start: nat, n: nat): Lex
    requires lex.entries != []
  {
    lex.WithTop(lex.Top().With(f, Slice(start, n)))
  }

  lemma StartsIdentifier(lex: Lex, f: Field, c: char)
    requires lex.Valid() && lex.state == WaitValue(f) && f != Text && lex.position > 0
    requires IsIdentifierCharacter(c) && c != '.'
    ensures Consume(lex, c) == WithValue(lex, f, lex.position - 1,
            lex.Top().Get(f).characters + 1).Go(ValueIdentifier(f))
  {
  }

  lemma LongerValue(lex: Lex, f: Field, start: nat, n: nat, more: nat)
    requires lex.entries != []
    ensures Longer(WithValue(lex, f, start, n), f, more) == WithValue(lex, f, start, n + more)
  {
  }

  /** The count of an identifier that was read before is not reset. */
  lemma ReadIdentifierValue(raw: string, lex: Lex, f: Field, n: nat, v: string, w: string)
    requires lex.Valid() && lex.state == WaitValue(f) && f != Text && lex.Top().Get(f).characters == n
    requires ValidIdentifier(v) && AllWhitespace(w) && At(raw, lex.position, v + (w + ";"))
    ensures Finish(raw, lex)
         == Finish(raw, WithValue(lex, f, lex.position, n + |v|).(position := lex.position + |v| + |w| + 1,
             state := EntryInitial))
  {
    hide Finish;
    hide Consume;
    hide Longer;
    var p := lex.position;
    AtSplit(raw, p, v, w + ";");
    AtFirst(raw, p, v);
    assert IsIdentifierCharacter(v[0]);
    OneCharacter(raw, lex);
    StartsIdentifier(lex.(position := p + 1), f, v[0]);
    var first := WithValue(lex, f, p, n + 1).(position := p + 1, state := ValueIdentifier(f));
    ReadIdentifier(raw, first, f, v[1..]);
    var read := WithValue(lex, f, p, n + |v|).(position := p + |v|, state := ValueIdentifier(f));
    LongerValue(lex.(position := p + |v|, state := ValueIdentifier(f)), f, p, n + 1, |v| - 1);
    EndIdentifier(raw, read, f, w);
  }

  lemma PassesQuote(lex: Lex, f: Field)
    requires lex.Valid() && lex.state == WaitValue(f) && f != Text && lex.position > 0
    ensures Consume(lex, '\"') == WithValue(lex, f, lex.position - 1, lex.Top().Get(f).characters)
  {
  }

  lemma WithValueTwice(lex: Lex, f: Field, start: nat, n: nat, start': nat, n': nat)
    requires lex.entries != []
    ensures WithValue(WithValue(lex, f, start, n), f, start', n') == WithValue(lex, f, start', n')
    ensures WithValue(lex, f, start, n).Top().Get(f).characters == n
  {
  }

  /** A quotation mark in front of an identifier is passed over: the identifier is read as if it were not there. */
  lemma QuoteIsPassedOver(raw: string, lex: Lex, f: Field, n: nat, v: string, w: string)
    requires lex.Valid() && lex.state == WaitValue(f) && f != Text && lex.Top().Get(f).characters == n
    requires ValidIdentifier(v) && AllWhitespace(w) && At(raw, lex.position, "\"" + (v + (w + ";")))
    ensures Finish(raw, lex)
         == Finish(raw, WithValue(lex, f, lex.position + 1, n + |v|).(position := lex.position + |v| + |w| + 2,
             state := EntryInitial))
  {
    hide Finish;
    hide Consume;
    hide WithValue;
    var p := lex.position;
    AtSplit(raw, p, "\"", v + (w + ";"));
    AtFirst(raw, p, "\"");
    OneCharacter(raw, lex);
    PassesQuote(lex.(position := p + 1), f);
    var passed := WithValue(lex.(position := p + 1), f, p, n);
    WithValueTwice(lex.(position := p + 1), f, p, n, p + 1, n + |v|);
    WithValueKeepsPlace(lex, f, p, n, p + 1);
    WithValueKeepsPlace(lex, f, p + 1, n + |v|, p + 1);
    ReadIdentifierValue(raw, passed, f, n, v, w);
  }

  lemma WithValueKeepsPlace(lex: Lex, f: Field, start: nat, n: nat, position: nat)
    requires lex.Valid() && lex.entries != []
    ensures WithValue(lex.(position := position), f, start, n) == WithValue(lex, f, start, n).(position := position)
    ensures WithValue(lex, f, start, n).state == lex.state && WithValue(lex, f, start, n).entries != []
    ensures WithValue(lex, f, start, n).Valid()
  {
  }

  lemma StartsText(lex: Lex)
    requires lex.Valid() && lex.state == WaitValue(Text)
    ensures Consume(lex, '\"') == WithValue(lex, Text, lex.position, lex.Top().text.characters).Go(ValueText)
  {
  }

  lemma EndsText(lex: Lex)
    requires lex.Valid() && lex.state == ValueText && lex.Top().text.characters > 0
    ensures Consume(lex, '\"') == lex.Go(WaitNewline)
  {
  }

  lemma ReadTextValue(raw: string, lex: Lex, n: nat, v: string, w: string)
    requires lex.Valid() && lex.state == WaitValue(Text) && lex.Top().text.characters == n && n + |v| <= 255
    requires ValidText(v) && AllWhitespace(w) && At(raw, lex.position, "\"" + (v + "\"") + (w + ";"))
    ensures Finish(raw, lex)
         == Finish(raw, WithValue(lex, Text, lex.position + 1, n + |v|).(position := lex.position + |v| + |w| + 3,
             state := EntryInitial))
  {
    hide Finish;
    hide Consume;
    hide Longer;
    var p := lex.position;
    AtSplit(raw, p, "\"" + (v + "\""), w + ";");
    AtSplit(raw, p, "\"", v + "\"");
    AtSplit(raw, p + 1, v, "\"");
    AtFirst(raw, p, "\"");
    OneCharacter(raw, lex);
    StartsText(lex.(position := p + 1));
    var inside := lex.(position := p + 1, state := ValueText);
    ReadText(raw, WithValue(inside, Text, p + 1, n), v);
    LongerValue(inside.(position := p + 1 + |v|), Text, p + 1, n, |v|);
    var read := WithValue(inside.(position := p + 1 + |v|), Text, p + 1, n + |v|);
    AtFirst(raw, p + 1 + |v|, "\"");
    OneCharacter(raw, read);
    EndsText(read.(position := p + |v| + 2));
    WaitForSemicolon(raw, read.(position := p + |v| + 2, state := WaitNewline), w);
  }

  /** Where the characters of the value begin, counted from the start of the field. */
  function ValueOffset(f: Field, l: FieldLayout): nat {
    |PrintHead(f, l)| + |l.afterEquals| + if f == Text then 1 else 0
  }

  /** The longest value that still fits behind `n` characters. */
  predicate Room(f: Field, n: nat, v: string) {
    f == Text ==> n + |v| <= 255
  }

  lemma ReadTail(raw: string, lex: Lex, f: Field, n: nat, v: string, l: FieldLayout)
    requires lex.Valid() && lex.state == WaitValue(f) && lex.Top().Get(f).characters == n && Room(f, n, v)
    requires ValidValue(f, v) && l.Valid() && At(raw, lex.position, PrintTail(f, v, l))
    ensures var start := lex.position + |l.afterEquals| + if f == Text then 1 else 0;
            Finish(raw, lex)
            == Finish(raw, WithValue(lex, f, start, n + |v|).(position := lex.position + |PrintTail(f, v, l)|,
                state := EntryInitial))
  {
    hide Finish;
    AtSplit(raw, lex.position, l.afterEquals, Quoted(f, v) + (l.beforeSemicolon + ";"));
    SkipWhitespace(raw, lex, l.afterEquals);
    var ready := lex.(position := lex.position + |l.afterEquals|);
    if f == Text {
      ReadTextValue(raw, ready, n, v, l.beforeSemicolon);
    } else {
      ReadIdentifierValue(raw, ready, f, n, v, l.beforeSemicolon);
    }
  }

  /** Reading a printed field: the slice begins where the value does, its count is added to. */
  lemma ReadField(raw: string, lex: Lex, f: Field, n: nat, v: string, l: FieldLayout)
    requires lex.Valid() && lex.state == EntryInitial && lex.Top().Get(f).characters == n && Room(f, n, v)
    requires ValidValue(f, v) && l.Valid() && At(raw, lex.position, PrintField(f, v, l))
    ensures Finish(raw, lex)
         == Finish(raw, WithValue(lex, f, lex.position + ValueOffset(f, l),
             n + |v|).(position := lex.position + |PrintField(f, v, l)|))
  {
    hide Finish;
    hide PrintHead;
    hide PrintTail;
    var p, head, tail := lex.position, PrintHead(f, l), PrintTail(f, v, l);
    AtSplit(raw, p, head, tail + l.after);
    AtSplit(raw, p + |head|, tail, l.after);
    ReadHead(raw, lex, f, l);
    ReadTail(raw, lex.(position := p + |head|, state := WaitValue(f)), f, n, v, l);
    SkipWhitespace(raw, WithValue(lex, f, p + ValueOffset(f, l), n + |v|).(position := p + |head| + |tail|,
        state := EntryInitial), l.after);
  }

  /**
   A field reads back as its value exactly when nothing was read into it before: repeating
   a field moves the slice but keeps the characters already counted.
   */
  lemma FieldReadsBackIff(raw: string, lex: Lex, f: Field, n: nat, v: string, l: FieldLayout) returns (lex': Lex)
    requires lex.Valid() && lex.state == EntryInitial && lex.Top().Get(f).characters == n && Room(f, n, v)
    requires ValidValue(f, v) && l.Valid() && At(raw, lex.position, PrintField(f, v, l))
    ensures lex'.Valid() && lex'.state == EntryInitial && |lex'.entries| == |lex.entries|
    ensures lex'.position == lex.position + |PrintField(f, v, l)| && Finish(raw, lex) == Finish(raw, lex')
    ensures Reads(raw, lex'.Top().Get(f), v) <==> n == 0
  {
    hide Finish;
    hide PrintField;
    hide ValueOffset;
    ReadField(raw, lex, f, n, v, l);
    ValueIsThere(raw, lex.position, f, v, l);
    WithValueSetsOne(lex, f, lex.position + ValueOffset(f, l), n + |v|);
    lex' := WithValue(lex, f, lex.position + ValueOffset(f, l), n + |v|).(position := lex.position + |PrintField(f,
        v, l)|);
  }

  lemma ValueIsThere(raw: string, p: nat, f: Field, v: string, l: FieldLayout)
    requires At(raw, p, PrintField(f, v, l))
    ensures At(raw, p + ValueOffset(f, l), v)
  {
    hide PrintHead;
    hide PrintTail;
    hide At;
    var head, tail := PrintHead(f, l), PrintTail(f, v, l);
    AtSplit(raw, p, head, tail + l.after);
    AtSplit(raw, p + |head|, tail, l.after);
    ValueIsInTail(raw, p + |head|, f, v, l);
  }

  lemma ValueIsInTail(raw: string, p: nat, f: Field, v: string, l: FieldLayout)
    requires At(raw, p, PrintTail(f, v, l))
    ensures At(raw, p + |l.afterEquals| + if f == Text then 1 else 0, v)
  {
    hide At;
    AtSplit(raw, p, l.afterEquals, Quoted(f, v) + (l.beforeSemicolon + ";"));
    AtSplit(raw, p + |l.afterEquals|, Quoted(f, v), l.beforeSemicolon + ";");
    if f == Text {
      AtSplit(raw, p + |l.afterEquals|, "\"", v + "\"");
      AtSplit(raw, p + |l.afterEquals| + 1, v, "\"");
    }
  }

  // ----- Entries -----

  /** What a string file is meant to say about one string. */
  datatype Source = Source(data: string, length: string, text: string) {
    function Value(f: Field): string {
      match f case Data => data case Length => length case Text => text
    }

    predicate Valid() {
      ValidIdentifier(data) && ValidIdentifier(length) && ValidText(text)
    }
  }

  /** The fields may come in any order. */
  datatype EntryLayout = EntryLayout(before: string, open: string, order: seq<Field>, fields: seq<FieldLayout>) {
    predicate Valid() {
      && AllWhitespace(before) && AllWhitespace(open)
      && |order| == |fields| == 3 && Distinct(order)
      && forall i :: 0 <= i < |fields| ==> fields[i].Valid()
    }
  }

  predicate Distinct(order: seq<Field>) {
    forall i, j :: 0 <= i < j < |order| ==> order[i] != order[j]
  }

  function PrintFields(e: Source, order: seq<Field>, fields: seq<FieldLayout>): string
    requires |order| == |fields|
  {
    if order == [] then ""
    else PrintField(order[0], e.Value(order[0]), fields[0]) + PrintFields(e, order[1..], fields[1..])
  }

  function PrintEntry(e: Source, l: EntryLayout): string
    requires l.Valid()
  {
    l.before + ("{" + (l.open + (PrintFields(e, l.order, l.fields) + "}")))
  }

  /** The slice reads as the value. */
  predicate Reads(raw: string, s: Slice, v: string) {
    s.start >= 0 && s.characters == |v| && At(raw, s.start, v)
  }

  ghost predicate ReadsEntry(raw: string, entry: Entry, e: Source) {
    forall f: Field :: Reads(raw, entry.Get(f), e.Value(f))
  }

  /** Nothing but the fields of the last entry and the position has changed. */
  predicate SameButTop(lex: Lex, lex': Lex) {
    && lex'.state == lex.state && lex'.capacity == lex.capacity
    && lex.entries != [] && |lex'.entries| == |lex.entries|
    && lex'.entries[..|lex.entries| - 1] == lex.entries[..|lex.entries| - 1]
  }

  lemma WithValueSetsOne(lex: Lex, f: Field, start: nat, n: nat)
    requires lex.entries != []
    ensures SameButTop(lex, WithValue(lex, f, start, n))
    ensures forall g: Field :: WithValue(lex, f, start, n).Top().Get(g) == if g == f then Slice(start,
            n) else lex.Top().Get(g)
  {
  }

  lemma {:induction false} ReadFields(raw: string, lex: Lex, e: Source, order: seq<Field>, fields: seq<FieldLayout>)
    returns (lex': Lex)
    requires lex.Valid() && lex.state == EntryInitial && e.Valid()
    requires |order| == |fields| && Distinct(order)
    requires forall i :: 0 <= i < |order| ==> fields[i].Valid() && lex.Top().Get(order[i]).characters == 0
    requires At(raw, lex.position, PrintFields(e, order, fields))
    ensures lex'.Valid() && SameButTop(lex, lex') && lex'.position == lex.position + |PrintFields(e, order, fields)|
    ensures Finish(raw, lex) == Finish(raw, lex')
    ensures forall f: Field ::
              if f in order then Reads(raw, lex'.Top().Get(f), e.Value(f)) else lex'.Top().Get(f) == lex.Top().Get(f)
    decreases |order|
  {
    hide Finish;
    hide PrintField;
    hide ValueOffset;
    if order == [] {
      lex' := lex;
    } else {
      var f, printed := order[0], PrintField(order[0], e.Value(order[0]), fields[0]);
      AtSplit(raw, lex.position, printed, PrintFields(e, order[1..], fields[1..]));
      hide At;
      hide Reads;
      var next := ReadOneField(raw, lex, e, f, fields[0]);
      lex' := ReadFields(raw, next, e, order[1..], fields[1..]);
      assert order == [f] + order[1..];
      hide PrintFields;
      SameTopTwice(lex, next, lex');
    }
  }

  lemma SameTopTwice(lex: Lex, next: Lex, lex': Lex)
    requires SameButTop(lex, next) && SameButTop(next, lex')
    ensures SameButTop(lex, lex')
  {
  }

  lemma ReadOneField(raw: string, lex: Lex, e: Source, f: Field, l: FieldLayout) returns (next: Lex)
    requires lex.Valid() && lex.state == EntryInitial && e.Valid() && l.Valid() && lex.Top().Get(f).characters == 0
    requires At(raw, lex.position, PrintField(f, e.Value(f), l))
    ensures next.Valid() && SameButTop(lex, next) && next.position == lex.position + |PrintField(f, e.Value(f), l)|
    ensures next.position <= |raw| && Finish(raw, lex) == Finish(raw, next)
    ensures Reads(raw, next.Top().Get(f), e.Value(f))
    ensures forall g: Field :: g != f ==> next.Top().Get(g) == lex.Top().Get(g)
  {
    hide Finish;
    hide PrintField;
    hide ValueOffset;
    var v := e.Value(f);
    ReadField(raw, lex, f, 0, v, l);
    ValueIsThere(raw, lex.position, f, v, l);
    WithValueSetsOne(lex, f, lex.position + ValueOffset(f, l), |v|);
    next := WithValue(lex, f, lex.position + ValueOffset(f, l), |v|).(position := lex.position + |PrintField(f, v, l)|);
  }

  // ----- How many entries there can be -----

  function Pow2(n: nat): nat {
    if n == 0 then 1 else 2 * Pow2(n - 1)
  }

  /** The capacity of the string array after `n` pushes, if it could not wrap. */
  function CapacityAfter(n: nat): nat {
    if n == 0 then 1
    else if CapacityAfter(n - 1) == n then CapacityAfter(n - 1)
    else 2 * CapacityAfter(n - 1)
  }

  lemma {:induction false} CapacityIsPower(n: nat)
    requires n >= 5
    ensures CapacityAfter(n) == Pow2(n - 2) && CapacityAfter(n) > n + 1
  {
    if n == 5 {
      assert CapacityAfter(1) == 1 && CapacityAfter(2) == 2 && CapacityAfter(3) == 4 && CapacityAfter(4) == 4;
    } else {
      CapacityIsPower(n - 1);
    }
  }

  lemma {:induction false} Pow2Grows(m: nat, n: nat)
    requires m <= n
    ensures Pow2(m) <= Pow2(n)
  {
    if m < n {
      Pow2Grows(m, n - 1);
    }
  }

  lemma {:induction false} Pow2Adds(m: nat, n: nat)
    ensures Pow2(m + n) == Pow2(m) * Pow2(n)
  {
    if m > 0 {
      Pow2Adds(m - 1, n);
      DoubleProduct(Pow2(m - 1), Pow2(n));
    }
  }

  lemma DoubleProduct(a: nat, b: nat)
    ensures 2 * (a * b) == (2 * a) * b
  {
  }

  lemma Pow2Values()
    ensures Pow2(30) == 0x4000_0000 && Pow2(31) == 0x8000_0000
  {
    assert Pow2(10) == 0x400;
    Pow2Adds(10, 10);
    Pow2Adds(20, 10);
    Pow2Adds(1, 30);
  }

  const MAX_ENTRIES: nat := 33

  lemma CapacityIsBounded(n: nat)
    requires n <= MAX_ENTRIES
    ensures 0 < CapacityAfter(n) <= 0x8000_0000
    ensures CapacityAfter(n) == 0x8000_0000 <==> n == MAX_ENTRIES
  {
    if n >= 5 {
      hide CapacityAfter;
      hide Pow2;
      CapacityIsPower(n);
      Pow2Values();
      Pow2Grows(n - 2, if n == MAX_ENTRIES then 31 else 30);
    } else {
      assert CapacityAfter(1) == 1 && CapacityAfter(2) == 2 && CapacityAfter(3) == 4 && CapacityAfter(4) == 4;
    }
  }

  /** The capacity goes with the number of entries, until a push of the 34th has wrapped it to zero. */
  predicate CapacityFollows(lex: Lex) {
    && |lex.entries| <= MAX_ENTRIES
    && (lex.capacity == CapacityAfter(|lex.entries|) || (|lex.entries| == MAX_ENTRIES && lex.capacity == 0))
  }

  /** The array can take 33 entries; the push of another one wraps the capacity to zero, for good. */
  lemma PushWorksIff(lex: Lex)
    requires CapacityFollows(lex)
    ensures PushEntry(lex)
         == if |lex.entries| < MAX_ENTRIES
            then lex.(entries := lex.entries + [EMPTY_ENTRY], capacity := CapacityAfter(|lex.entries| + 1),
                state := EntryInitial)
            else lex.(capacity := 0)
  {
    var n := |lex.entries|;
    CapacityIsBounded(n);
    assert CapacityAfter(n + 1) == if CapacityAfter(n) == n + 1 then CapacityAfter(n) else 2 * CapacityAfter(n);
    hide CapacityAfter;
    if lex.capacity != 0 {
      DoubleWraps(lex.capacity);
    }
  }

  lemma ConsumeKeepsCapacity(lex: Lex, c: char)
    requires lex.Valid() && CapacityFollows(lex)
    ensures CapacityFollows(Consume(lex, c))
  {
    hide PushEntry;
    hide CapacityAfter;
    PushWorksIff(lex);
  }

  lemma {:induction false} FinishKeepsCapacity(raw: string, lex: Lex)
    requires lex.Valid() && lex.position <= |raw| && CapacityFollows(lex)
    ensures CapacityFollows(Finish(raw, lex))
    decreases |raw| - lex.position, !lex.state.Exited?
  {
    hide Consume;
    hide CapacityAfter;
    if !lex.state.Exited? {
      var p := Next(raw, lex.position);
      if p < |raw| {
        ConsumeKeepsCapacity(lex.(position := p + 1), raw[p]);
      }
      FinishKeepsCapacity(raw, Step(raw, lex));
    }
  }

  /** Whatever the file holds, no more than 33 entries are ever read. */
  lemma NoFileHasMoreEntries(raw: string)
    ensures |Parse(raw).entries| <= MAX_ENTRIES
  {
    FinishKeepsCapacity(raw, START);
  }

  lemma DoubleWraps(capacity: nat)
    requires 0 < capacity <= 0x8000_0000
    ensures (capacity - 1) % U32 == capacity - 1
    ensures capacity * 2 % U32 == if capacity == 0x8000_0000 then 0 else capacity * 2
  {
  }

  // ----- Whole files -----

  lemma ReadBrace(raw: string, lex: Lex, l: EntryLayout, rest: string)
    requires lex.Valid() && lex.state == Initial && l.Valid()
    requires At(raw, lex.position, l.before + ("{" + (l.open + rest)))
    ensures var braced := PushEntry(lex.(position := lex.position + |l.before| + 1));
            && braced.Valid() && Finish(raw, lex) == Finish(raw, braced.(position := braced.position + |l.open|))
            && At(raw, braced.position + |l.open|, rest)
  {
    hide Finish;
    var p := lex.position + |l.before|;
    AtSplit(raw, lex.position, l.before, "{" + (l.open + rest));
    AtSplit(raw, p, "{", l.open + rest);
    AtSplit(raw, p + 1, l.open, rest);
    SkipWhitespace(raw, lex, l.before);
    AtFirst(raw, p, "{");
    OneCharacter(raw, lex.(position := p));
    SkipWhitespace(raw, PushEntry(lex.(position := p + 1)), l.open);
  }

  lemma ClosesEntry(lex: Lex)
    requires lex.Valid() && lex.state == EntryInitial && lex.Top().Complete()
    ensures Consume(lex, '}') == lex.Go(Initial)
  {
  }

  lemma ReadsComplete(raw: string, entry: Entry, e: Source)
    requires e.Valid() && ReadsEntry(raw, entry, e)
    ensures entry.Complete()
  {
    assert Reads(raw, entry.Get(Data), e.Value(Data));
    assert Reads(raw, entry.Get(Length), e.Value(Length));
    assert Reads(raw, entry.Get(Text), e.Value(Text));
  }

  lemma ThreeFieldsAreAll(order: seq<Field>, f: Field)
    requires |order| == 3 && Distinct(order)
    ensures f in order
  {
    assert order[0] != order[1] && order[1] != order[2] && order[0] != order[2];
    assert f == order[0] || f == order[1] || f == order[2];
  }

  /** A printed entry is read back as one more entry. */
  lemma ReadEntry(raw: string, lex: Lex, e: Source, l: EntryLayout) returns (lex': Lex)
    requires lex.Valid() && lex.state == Initial && e.Valid() && l.Valid()
    requires |lex.entries| < MAX_ENTRIES && lex.capacity == CapacityAfter(|lex.entries|)
    requires At(raw, lex.position, PrintEntry(e, l))
    ensures lex'.Valid() && lex'.state == Initial && lex'.position == lex.position + |PrintEntry(e, l)|
    ensures |lex'.entries| == |lex.entries| + 1 && lex'.entries[..|lex.entries|] == lex.entries
    ensures lex'.capacity == CapacityAfter(|lex'.entries|)
    ensures ReadsEntry(raw, lex'.entries[|lex.entries|], e)
    ensures Finish(raw, lex) == Finish(raw, lex')
  {
    hide Finish;
    hide CapacityAfter;
    hide PrintFields;
    hide PushEntry;
    hide Reads;
    var fields := PrintFields(e, l.order, l.fields);
    ReadBrace(raw, lex, l, fields + "}");
    var braced := lex.(position := lex.position + |l.before| + 1);
    PushWorksIff(braced);
    var inside := PushEntry(braced);
    var ready := inside.(position := inside.position + |l.open|);
    AtSplit(raw, ready.position, fields, "}");
    var done := ReadFields(raw, ready, e, l.order, l.fields);
    forall f: Field ensures f in l.order {
      ThreeFieldsAreAll(l.order, f);
    }
    assert ReadsEntry(raw, done.Top(), e);
    ReadsComplete(raw, done.Top(), e);
    AtFirst(raw, done.position, "}");
    OneCharacter(raw, done);
    ClosesEntry(done.(position := done.position + 1));
    lex' := done.(position := done.position + 1, state := Initial);
    assert ready.entries[..|lex.entries|] == lex.entries;
  }

  predicate ValidFile(sources: seq<Source>, layouts: seq<EntryLayout>, trailing: string) {
    && |sources| == |layouts| && AllWhitespace(trailing)
    && forall i :: 0 <= i < |sources| ==> sources[i].Valid() && layouts[i].Valid()
  }

  function PrintFile(sources: seq<Source>, layouts: seq<EntryLayout>, trailing: string): string
    requires ValidFile(sources, layouts, trailing)
    decreases |sources|
  {
    if sources == [] then trailing
    else PrintEntry(sources[0], layouts[0]) + PrintFile(sources[1..], layouts[1..], trailing)
  }

  lemma ReadEnd(raw: string, lex: Lex, trailing: string)
    requires lex.Valid() && lex.state == Initial && lex.entries != [] && AllWhitespace(trailing)
    requires At(raw, lex.position, trailing) && lex.position + |trailing| == |raw|
    ensures Finish(raw, lex).state == Exited(Ok) && Finish(raw, lex).entries == lex.entries
  {
    SkipWhitespace(raw, lex, trailing);
    var last := lex.(position := |raw|);
    assert Step(raw, last) == last.(state := Exited(Ok));
  }

  ghost predicate ReadsAll(raw: string, entries: seq<Entry>, sources: seq<Source>) {
    |entries| == |sources| && forall i :: 0 <= i < |sources| ==> ReadsEntry(raw, entries[i], sources[i])
  }

  /** The entries read so far stay; the rest of the file adds what it says. */
  lemma {:induction false} ReadFile(raw: string, lex: Lex, sources: seq<Source>, layouts: seq<EntryLayout>,
                                    trailing: string)
    requires lex.Valid() && lex.state == Initial && ValidFile(sources, layouts, trailing)
    requires 0 < |lex.entries| + |sources| <= MAX_ENTRIES && lex.capacity == CapacityAfter(|lex.entries|)
    requires At(raw, lex.position, PrintFile(sources, layouts, trailing))
    requires lex.position + |PrintFile(sources, layouts, trailing)| == |raw|
    ensures var r := Finish(raw, lex);
            && r.state == Exited(Ok) && |r.entries| == |lex.entries| + |sources|
            && r.entries[..|lex.entries|] == lex.entries && ReadsAll(raw, r.entries[|lex.entries|..], sources)
    decreases |sources|
  {
    hide Finish;
    hide PrintEntry;
    hide CapacityAfter;
    hide ReadsEntry;
    if sources == [] {
      ReadEnd(raw, lex, trailing);
    } else {
      var rest := PrintFile(sources[1..], layouts[1..], trailing);
      AtSplit(raw, lex.position, PrintEntry(sources[0], layouts[0]), rest);
      var next := ReadEntry(raw, lex, sources[0], layouts[0]);
      ReadFile(raw, next, sources[1..], layouts[1..], trailing);
    }
  }

  /** When the array is full, the brace is passed over and the first field is taken for a stray character. */
  lemma StrayDot(lex: Lex)
    requires lex.Valid() && lex.state == Initial
    ensures Consume(lex, '.').state == Exited(EntryMalformed)
  {
  }

  lemma FieldsBeginWithDot(e: Source, l: EntryLayout)
    requires l.Valid()
    ensures var fields := PrintFields(e, l.order, l.fields) + "}"; fields != "" && fields[0] == '.'
  {
  }

  lemma ReadOneTooMany(raw: string, lex: Lex, e: Source, l: EntryLayout)
    requires lex.Valid() && lex.state == Initial && e.Valid() && l.Valid()
    requires |lex.entries| == MAX_ENTRIES && lex.capacity == CapacityAfter(|lex.entries|)
    requires At(raw, lex.position, PrintEntry(e, l))
    ensures Finish(raw, lex).state == Exited(EntryMalformed)
  {
    hide PrintFields;
    hide CapacityAfter;
    hide Consume;
    hide Step;
    var fields := PrintFields(e, l.order, l.fields) + "}";
    ReadBrace(raw, lex, l, fields);
    var braced := lex.(position := lex.position + |l.before| + 1);
    PushWorksIff(braced);
    var stuck := braced.(position := braced.position + |l.open|, capacity := 0);
    FieldsBeginWithDot(e, l);
    AtFirst(raw, stuck.position, fields);
    OneCharacter(raw, stuck);
    StrayDot(stuck.(position := stuck.position + 1));
  }

  lemma {:induction false} ReadTooMany(raw: string, lex: Lex, sources: seq<Source>, layouts: seq<EntryLayout>,
                                       trailing: string)
    requires lex.Valid() && lex.state == Initial && ValidFile(sources, layouts, trailing)
    requires |lex.entries| <= MAX_ENTRIES < |lex.entries| + |sources| && lex.capacity == CapacityAfter(|lex.entries|)
    requires At(raw, lex.position, PrintFile(sources, layouts, trailing))
    ensures Finish(raw, lex).state == Exited(EntryMalformed)
    decreases |sources|
  {
    hide Finish;
    hide PrintEntry;
    hide CapacityAfter;
    var rest := PrintFile(sources[1..], layouts[1..], trailing);
    AtSplit(raw, lex.position, PrintEntry(sources[0], layouts[0]), rest);
    if |lex.entries| == MAX_ENTRIES {
      ReadOneTooMany(raw, lex, sources[0], layouts[0]);
    } else {
      var next := ReadEntry(raw, lex, sources[0], layouts[0]);
      ReadTooMany(raw, next, sources[1..], layouts[1..], trailing);
    }
  }

  /**
   A printed file, with any whitespace between its tokens and its fields in any order, is
   read back as the same identifiers and texts exactly when it has at most 33 entries.
   */
  lemma RoundTripIff(sources: seq<Source>, layouts: seq<EntryLayout>, trailing: string)
    requires ValidFile(sources, layouts, trailing) && sources != []
    ensures var raw := PrintFile(sources, layouts, trailing);
            |sources| <= MAX_ENTRIES <==> Parse(raw).state == Exited(Ok) && ReadsAll(raw, Parse(raw).entries, sources)
  {
    var raw := PrintFile(sources, layouts, trailing);
    assert At(raw, 0, raw) && CapacityAfter(0) == 1;
    if |sources| <= MAX_ENTRIES {
      ReadFile(raw, START, sources, layouts, trailing);
      assert Parse(raw).entries[0..] == Parse(raw).entries;
    } else {
      ReadTooMany(raw, START, sources, layouts, trailing);
    }
  }
}
