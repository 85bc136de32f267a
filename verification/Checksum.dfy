/** The incremental Fletcher checksum (lib/src/tux64/checksum.c). */
module Checksum {
  import opened Arithmetic
  import opened Bytes

  // ----- What the checksum is: a weighted sum of the zero-padded big-endian words -----

  /** The whole words of a byte string, in order. */
  function Words(bytes: seq<Byte>): seq<nat> {
    if |bytes| < 4 then [] else [Word(bytes[..4])] + Words(bytes[4..])
  }

  function Padded(bytes: seq<Byte>): seq<Byte> {
    if |bytes| % 4 == 0 then bytes else bytes + Zeros(4 - |bytes| % 4)
  }

  /** Word `i` of `n` counts `n - 1 - i` times. */
  function WeightedSum(words: seq<nat>): nat {
    if words == [] then 0 else (|words| - 1) * words[0] + WeightedSum(words[1..])
  }

  function Fletcher(bytes: seq<Byte>): nat {
    WeightedSum(Words(Padded(bytes))) % U32
  }

  // ----- The streaming form -----

  datatype Context = Context(sumHi: nat, sumLo: nat, wordBuffer: seq<Byte>, capacity: nat) {
    predicate Valid() {
      sumHi < U32 && sumLo < U32 && |wordBuffer| == 4 && 1 <= capacity <= 4
    }
  }

  const INITIAL := Context(0, 0, [0, 0, 0, 0], 4)

  function DigestWord(c: Context, word: nat): Context {
    var sumHi := (c.sumHi + word) % U32;
    c.(sumHi := sumHi, sumLo := (c.sumLo + sumHi) % U32)
  }

  /** Completes a pending word if there is one; also says how many bytes that took. */
  function FillWordBuffer(c: Context, data: seq<Byte>): (r: (Context, nat))
    requires c.Valid()
    ensures r.0.Valid() && r.1 <= |data|
  {
    if c.capacity == 4 then (c, 0)
    else if |data| < c.capacity then
      (c.(wordBuffer := Store(c.wordBuffer, 4 - c.capacity, data), capacity := c.capacity - |data|), |data|)
    else
      var buffer := Store(c.wordBuffer, 4 - c.capacity, data[..c.capacity]);
      (DigestWord(c.(wordBuffer := buffer, capacity := 4), Word(buffer)), c.capacity)
  }

  function DigestWholeWords(c: Context, data: seq<Byte>): (r: Context)
    decreases |data|
    ensures c.Valid() ==> r.Valid()
    ensures r.wordBuffer == c.wordBuffer && r.capacity == c.capacity
  {
    if |data| < 4 then c else DigestWholeWords(DigestWord(c, Word(data[..4])), data[4..])
  }

  function Rest(data: seq<Byte>): seq<Byte> {
    data[|data| - |data| % 4..]
  }

  function Digest(c: Context, data: seq<Byte>): (r: Context)
    requires c.Valid()
    ensures r.Valid()
  {
    var (filled, taken) := FillWordBuffer(c, data);
    var data' := data[taken..];
    DigestWholeWords(filled, data').(wordBuffer := Store(filled.wordBuffer, 0, Rest(data')),
                                     capacity := 4 - |data'| % 4)
  }

  function FlushWordBuffer(c: Context): (r: Context)
    requires c.Valid()
    ensures r.Valid()
  {
    if c.capacity == 4 then c
    else
      var buffer := Store(c.wordBuffer, 4 - c.capacity, Zeros(c.capacity));
      DigestWord(c.(wordBuffer := buffer, capacity := 4), Word(buffer))
  }

  function Finalize(c: Context): nat
    requires c.Valid()
  {
    var flushed := FlushWordBuffer(c);
    (flushed.sumLo - flushed.sumHi) % U32
  }

  function OneShot(data: seq<Byte>): nat {
    Finalize(Digest(INITIAL, data))
  }

  // ----- The sums in closed form -----

  function Total(words: seq<nat>): nat {
    if words == [] then 0 else words[0] + Total(words[1..])
  }

  lemma {:induction false} ScaledRemainder(n: nat, x: nat)
    ensures (n * (x % U32)) % U32 == (n * x) % U32
  {
    if n > 0 {
      ScaledRemainder(n - 1, x);
      var r, a, b := x % U32, (n - 1) * (x % U32), (n - 1) * x;
      assert n * r == a + r && n * x == b + x;
      SameRemainder(a, b, x);
    }
  }

  lemma SameRemainder(a: nat, b: nat, x: nat)
    requires a % U32 == b % U32
    ensures (a + x % U32) % U32 == (b + x) % U32
  {
  }

  function DigestWords(c: Context, words: seq<nat>): (r: Context)
    decreases |words|
    ensures c.Valid() ==> r.Valid()
  {
    if words == [] then c else DigestWords(DigestWord(c, words[0]), words[1..])
  }

  /** The first sum after any number of words, without the intermediate wrapping. */
  lemma {:induction false} SumHiInClosedForm(c: Context, words: seq<nat>)
    requires c.sumHi < U32
    ensures DigestWords(c, words).sumHi == (c.sumHi + Total(words)) % U32
    decreases |words|
  {
    if words != [] {
      SumHiInClosedForm(DigestWord(c, words[0]), words[1..]);
      HiClosedFormStep(c.sumHi + words[0], Total(words[1..]));
    }
  }

  /** The second sum likewise: it weighs each word by how many words follow it. */
  lemma {:induction false} SumLoInClosedForm(c: Context, words: seq<nat>)
    requires c.sumLo < U32
    ensures DigestWords(c, words).sumLo ==
            (c.sumLo + |words| * c.sumHi + WeightedSum(words) + Total(words)) % U32
    decreases |words|
  {
    if words != [] {
      var n, tail, c' := |words|, words[1..], DigestWord(c, words[0]);
      SumLoInClosedForm(c', tail);
      assert |tail| == n - 1;
      LoStep(c.sumHi, c.sumLo, words[0], n, WeightedSum(tail), Total(tail));
    }
  }

  lemma LoStep(hi: nat, lo: nat, word: nat, n: nat, weighted: nat, total: nat)
    requires n > 0
    ensures var hi' := (hi + word) % U32;
            ((lo + hi') % U32 + (n - 1) * hi' + weighted + total) % U32
            == (lo + n * hi + ((n - 1) * word + weighted) + (word + total)) % U32
  {
    var hi' := (hi + word) % U32;
    var scaledHi, product, exact := (n - 1) * hi', n * hi', n * (hi + word);
    assert product % U32 == exact % U32 by { ScaledRemainder(n, hi + word); }
    assert scaledHi + hi' == product;
    assert exact == n * hi + ((n - 1) * word + word) by { Distribute(n, hi, word); }
    LoClosedFormStep(lo, hi', scaledHi, product, exact, weighted + total);
  }

  lemma Distribute(n: nat, hi: nat, word: nat)
    ensures n * (hi + word) == n * hi + ((n - 1) * word + word)
  {
  }

  lemma HiClosedFormStep(hi: nat, total: nat)
    ensures (hi % U32 + total) % U32 == (hi + total) % U32
  {
  }

  lemma LoClosedFormStep(lo: nat, hi: nat, scaledHi: nat, product: nat, exact: nat, rest: nat)
    requires scaledHi + hi == product && product % U32 == exact % U32
    ensures ((lo + hi) % U32 + scaledHi + rest) % U32 == (lo + exact + rest) % U32
  {
  }

  lemma {:induction false} WholeWordsAreWords(c: Context, data: seq<Byte>)
    ensures DigestWholeWords(c, data) == DigestWords(c, Words(data))
    decreases |data|
  {
    if |data| >= 4 {
      WholeWordsAreWords(DigestWord(c, Word(data[..4])), data[4..]);
    }
  }

  lemma WordsFirst(bytes: seq<Byte>)
    requires |bytes| >= 4
    ensures Words(bytes) == [Word(bytes[..4])] + Words(bytes[4..])
  {
  }

  lemma FirstOfAppend(a: seq<Byte>, b: seq<Byte>)
    requires |a| >= 4
    ensures (a + b)[..4] == a[..4] && (a + b)[4..] == a[4..] + b
  {
  }

  lemma {:induction false} WordsOfAppend(a: seq<Byte>, b: seq<Byte>)
    requires |a| % 4 == 0
    ensures Words(a + b) == Words(a) + Words(b)
  {
    if a == [] {
      assert a + b == b;
    } else {
      hide *;
      WordsOfAppend(a[4..], b);
      WordsFirst(a);
      WordsFirst(a + b);
      FirstOfAppend(a, b);
    }
  }

  lemma {:induction false} DigestWordsOfAppend(c: Context, a: seq<nat>, b: seq<nat>)
    ensures DigestWords(c, a + b) == DigestWords(DigestWords(c, a), b)
    decreases |a|
  {
    if a == [] {
      assert a + b == b;
    } else {
      DigestWordsOfAppend(DigestWord(c, a[0]), a[1..], b);
      assert (a + b)[1..] == a[1..] + b;
    }
  }

  // ----- A context that has absorbed a byte string -----

  function Whole(bytes: seq<Byte>): seq<Byte> {
    bytes[..|bytes| - |bytes| % 4]
  }

  ghost predicate Represents(c: Context, bytes: seq<Byte>) {
    && c.Valid()
    && c.sumHi == DigestWords(INITIAL, Words(Whole(bytes))).sumHi
    && c.sumLo == DigestWords(INITIAL, Words(Whole(bytes))).sumLo
    && c.capacity == 4 - |bytes| % 4
    && c.wordBuffer[..|bytes| % 4] == Rest(bytes)
  }

  lemma InitialRepresentsNothing()
    ensures Represents(INITIAL, [])
  {
  }

  lemma {:induction false} SumsOnly(c: Context, c': Context, words: seq<nat>)
    requires c.sumHi == c'.sumHi && c.sumLo == c'.sumLo
    ensures DigestWords(c, words).sumHi == DigestWords(c', words).sumHi
    ensures DigestWords(c, words).sumLo == DigestWords(c', words).sumLo
    decreases |words|
  {
    if words != [] {
      SumsOnly(DigestWord(c, words[0]), DigestWord(c', words[0]), words[1..]);
    }
  }

  /** Digesting from an empty word buffer appends. */
  lemma DigestFromEmptyBuffer(c: Context, bytes: seq<Byte>, data: seq<Byte>)
    requires Represents(c, bytes) && |bytes| % 4 == 0
    ensures Represents(Digest(c, data), bytes + data)
  {
    var whole := Whole(data);
    WholeAndRest(bytes, data);
    WholeWordsAreWords(c, data);
    WordsIgnoreRest(data);
    WordsOfAppend(bytes, whole);
    DigestWordsOfAppend(INITIAL, Words(bytes), Words(whole));
    SumsOnly(c, DigestWords(INITIAL, Words(bytes)), Words(whole));
  }

  lemma WholeAndRest(bytes: seq<Byte>, data: seq<Byte>)
    requires |bytes| % 4 == 0
    ensures Whole(bytes) == bytes && data[0..] == data
    ensures Whole(bytes + data) == bytes + Whole(data) && Rest(bytes + data) == Rest(data)
  {
    assert |bytes + data| % 4 == |data| % 4;
  }

  lemma WordsIgnoreRest(data: seq<Byte>)
    ensures Words(data) == Words(Whole(data))
  {
    WordsOfAppend(Whole(data), Rest(data));
    assert data == Whole(data) + Rest(data);
  }

  /** Completing the pending word is the same as having digested its bytes together. */
  lemma FillCompletesWord(c: Context, bytes: seq<Byte>, data: seq<Byte>)
    requires Represents(c, bytes) && |bytes| % 4 != 0 && |bytes| % 4 + |data| >= 4
    ensures var (filled, taken) := FillWordBuffer(c, data);
            taken == 4 - |bytes| % 4 && Represents(filled, bytes + data[..taken])
  {
    var taken := 4 - |bytes| % 4;
    var buffer := Store(c.wordBuffer, |bytes| % 4, data[..taken]);
    PendingWord(c.wordBuffer, bytes, data[..taken]);
    OneWord(buffer);
    WordsOfAppend(Whole(bytes), buffer);
    OneMoreWord(c.(wordBuffer := buffer, capacity := 4), Words(Whole(bytes)), Word(buffer));
    assert FillWordBuffer(c, data) == (DigestWord(c.(wordBuffer := buffer, capacity := 4), Word(buffer)), taken);
  }

  lemma OneMoreWord(c: Context, words: seq<nat>, word: nat)
    requires c.sumHi == DigestWords(INITIAL, words).sumHi && c.sumLo == DigestWords(INITIAL, words).sumLo
    ensures DigestWord(c, word).sumHi == DigestWords(INITIAL, words + [word]).sumHi
    ensures DigestWord(c, word).sumLo == DigestWords(INITIAL, words + [word]).sumLo
  {
    DigestWordsOfAppend(INITIAL, words, [word]);
    assert [word][1..] == [];
  }

  /** The filled buffer holds the last word of the bytes absorbed so far. */
  lemma PendingWord(buffer: seq<Byte>, bytes: seq<Byte>, more: seq<Byte>)
    requires |buffer| == 4 && buffer[..|bytes| % 4] == Rest(bytes) && |more| == 4 - |bytes| % 4
    ensures var filled := Store(buffer, |bytes| % 4, more);
            && Whole(bytes + more) == bytes + more == Whole(bytes) + filled
            && Rest(bytes + more) == []
  {
    assert bytes == Whole(bytes) + Rest(bytes);
    assert |bytes + more| % 4 == 0;
  }

  /** A call that cannot complete the pending word forgets it, and the new bytes with it. */
  lemma ShortCallForgets(c: Context, bytes: seq<Byte>, data: seq<Byte>)
    requires Represents(c, bytes) && |bytes| % 4 != 0 && |bytes| % 4 + |data| < 4
    ensures Represents(Digest(c, data), Whole(bytes))
  {
    ShortCallEmpties(c, data);
    WholeOfWhole(bytes);
  }

  lemma ShortCallEmpties(c: Context, data: seq<Byte>)
    requires c.Valid() && c.capacity < 4 && |data| < c.capacity
    ensures Digest(c, data).sumHi == c.sumHi && Digest(c, data).sumLo == c.sumLo && Digest(c, data).capacity == 4
  {
    assert FillWordBuffer(c, data).1 == |data|;
  }

  lemma WholeOfWhole(bytes: seq<Byte>)
    ensures Whole(Whole(bytes)) == Whole(bytes) && Rest(Whole(bytes)) == [] && |Whole(bytes)| % 4 == 0
  {
  }

  /** The bytes a caller must supply: enough to complete a pending word. */
  predicate Completes(pending: nat, bytes: nat) {
    pending % 4 == 0 || pending % 4 + bytes >= 4
  }

  /** One call appends its data exactly when it completes the pending word, if there is one. */
  lemma DigestAppendsIff(c: Context, bytes: seq<Byte>, data: seq<Byte>)
    requires Represents(c, bytes)
    ensures Represents(Digest(c, data), bytes + data) <==> Completes(|bytes|, |data|)
  {
    if |bytes| % 4 == 0 {
      DigestFromEmptyBuffer(c, bytes, data);
    } else if |bytes| % 4 + |data| >= 4 {
      DigestCompletesWord(c, bytes, data);
    } else {
      ShortCallForgets(c, bytes, data);
    }
  }

  lemma DigestCompletesWord(c: Context, bytes: seq<Byte>, data: seq<Byte>)
    requires Represents(c, bytes) && |bytes| % 4 != 0 && |bytes| % 4 + |data| >= 4
    ensures Represents(Digest(c, data), bytes + data)
  {
    FillCompletesWord(c, bytes, data);
    var taken := 4 - |bytes| % 4;
    var filled := FillWordBuffer(c, data).0;
    var first, rest := bytes + data[..taken], data[taken..];
    TakenAndRest(bytes, data, taken);
    DigestFromEmptyBuffer(filled, first, rest);
    assert Digest(c, data) == Digest(filled, rest);
  }

  lemma TakenAndRest(bytes: seq<Byte>, data: seq<Byte>, taken: nat)
    requires taken <= |data|
    ensures bytes + data[..taken] + data[taken..] == bytes + data
    ensures data[taken..][0..] == data[taken..]
  {
  }

  lemma FlushPads(c: Context, bytes: seq<Byte>)
    requires Represents(c, bytes)
    ensures Represents(FlushWordBuffer(c), Padded(bytes))
  {
    if |bytes| % 4 != 0 {
      var zeros := Zeros(4 - |bytes| % 4);
      FillCompletesWord(c, bytes, zeros);
      assert zeros[..|zeros|] == zeros;
    }
  }

  /** Finalising yields the weighted word sum of everything absorbed. */
  lemma FinalizeIsFletcher(c: Context, bytes: seq<Byte>)
    requires Represents(c, bytes)
    ensures Finalize(c) == Fletcher(bytes)
  {
    var padded := Padded(bytes);
    FlushPads(c, bytes);
    WholeIsAll(padded);
    FlushedSums(c, padded);
    hide *;
    FletcherOf(bytes);
    SumHiInClosedForm(INITIAL, Words(padded));
    SumLoInClosedForm(INITIAL, Words(padded));
    DifferenceOfSums(WeightedSum(Words(padded)), Total(Words(padded)));
  }

  lemma WholeIsAll(bytes: seq<Byte>)
    requires |bytes| % 4 == 0
    ensures Whole(bytes) == bytes
  {
  }

  /** What finalizing makes of a context without a pending word. */
  lemma FlushedSums(c: Context, padded: seq<Byte>)
    requires c.Valid() && Represents(FlushWordBuffer(c), padded) && Whole(padded) == padded
    ensures var sums := DigestWords(INITIAL, Words(padded));
            Finalize(c) == (sums.sumLo - sums.sumHi) % U32
    ensures INITIAL.sumHi == INITIAL.sumLo == 0
  {
    hide FlushWordBuffer;
    hide DigestWords;
    hide Words;
  }

  lemma DifferenceOfSums(weighted: nat, total: nat)
    ensures ((weighted + total) % U32 - total % U32) % U32 == weighted % U32
  {
  }

  // ----- Main results -----

  lemma OneShotIsFletcher(data: seq<Byte>)
    ensures OneShot(data) == Fletcher(data)
  {
    InitialRepresentsNothing();
    DigestFromEmptyBuffer(INITIAL, [], data);
    assert [] + data == data;
    FinalizeIsFletcher(Digest(INITIAL, data), data);
  }

  function DigestAll(c: Context, chunks: seq<seq<Byte>>): (r: Context)
    requires c.Valid()
    ensures r.Valid()
    decreases |chunks|
  {
    if chunks == [] then c else DigestAll(Digest(c, chunks[0]), chunks[1..])
  }

  /** Every call meets an empty word buffer or completes the pending word. */
  predicate SafeSplit(pending: nat, chunks: seq<seq<Byte>>)
    decreases |chunks|
  {
    chunks == [] || (Completes(pending, |chunks[0]|) && SafeSplit(pending + |chunks[0]|, chunks[1..]))
  }

  lemma {:induction false} DigestAllAppends(c: Context, bytes: seq<Byte>, chunks: seq<seq<Byte>>)
    requires Represents(c, bytes) && SafeSplit(|bytes|, chunks)
    ensures Represents(DigestAll(c, chunks), bytes + Concat(chunks))
    decreases |chunks|
  {
    if chunks == [] {
      assert bytes + [] == bytes;
    } else {
      DigestAppendsIff(c, bytes, chunks[0]);
      DigestAllAppends(Digest(c, chunks[0]), bytes + chunks[0], chunks[1..]);
      ConcatStep(bytes, chunks);
    }
  }

  lemma ConcatStep(bytes: seq<Byte>, chunks: seq<seq<Byte>>)
    requires chunks != []
    ensures bytes + chunks[0] + Concat(chunks[1..]) == bytes + Concat(chunks)
  {
  }

  /** Streaming any safe split gives the checksum of the whole. */
  lemma StreamingIsFletcher(chunks: seq<seq<Byte>>)
    requires SafeSplit(0, chunks)
    ensures Finalize(DigestAll(INITIAL, chunks)) == Fletcher(Concat(chunks)) == OneShot(Concat(chunks))
  {
    InitialRepresentsNothing();
    DigestAllAppends(INITIAL, [], chunks);
    assert [] + Concat(chunks) == Concat(chunks);
    FinalizeIsFletcher(DigestAll(INITIAL, chunks), Concat(chunks));
    OneShotIsFletcher(Concat(chunks));
  }

  /** Changing word `i` of `n` by `d` changes the digest by `(n - 1 - i) * d`. */
  lemma {:induction false} WordChangeIsWeighted(words: seq<nat>, i: nat, word: nat)
    requires i < |words|
    ensures WeightedSum(words[i := word]) - WeightedSum(words) == (|words| - 1 - i) * (word - words[i])
  {
    var tail := words[1..];
    if i == 0 {
      assert words[0 := word][1..] == tail;
      ScaledDifference(|tail|, word, words[0]);
    } else {
      WordChangeIsWeighted(tail, i - 1, word);
      assert words[i := word][1..] == tail[i - 1 := word];
      assert |tail| - 1 - (i - 1) == |words| - 1 - i;
    }
  }

  lemma ScaledDifference(n: nat, a: int, b: int)
    ensures n * a - n * b == n * (a - b)
  {
  }

  /** A change of one word goes unnoticed exactly when its weight times its size is a multiple of 2^32. */
  lemma OneWordChangeIsUnnoticedIff(before: seq<Byte>, after: seq<Byte>, i: nat, word: nat)
    requires i < |Words(Padded(before))| && Words(Padded(after)) == Words(Padded(before))[i := word]
    ensures var words := Words(Padded(before));
            Fletcher(before) == Fletcher(after) <==> ((|words| - 1 - i) * (word - words[i])) % U32 == 0
  {
    hide *;
    var words := Words(Padded(before));
    WordChangeIsWeighted(words, i, word);
    FletcherOf(before);
    FletcherOf(after);
    SameRemainderIff(WeightedSum(words), WeightedSum(words[i := word]));
  }

  lemma FletcherOf(bytes: seq<Byte>)
    ensures Fletcher(bytes) == WeightedSum(Words(Padded(bytes))) % U32
  {
  }

  lemma SameRemainderIff(a: int, b: int)
    ensures a % U32 == b % U32 <==> (b - a) % U32 == 0
  {
  }

  /** The last word, which may be a partial one, has weight zero: no change to it is ever noticed. */
  lemma LastWordIsNotChecked(front: seq<Byte>, last: seq<Byte>, last': seq<Byte>)
    requires |front| % 4 == 0 && 1 <= |last| <= 4 && 1 <= |last'| <= 4
    ensures Fletcher(front + last) == Fletcher(front + last')
  {
    hide *;
    WordsOfPaddedAppend(front, last);
    WordsOfPaddedAppend(front, last');
    PaddedWord(last);
    PaddedWord(last');
    OneWord(Padded(last));
    OneWord(Padded(last'));
    var n, before, after: int := |Words(front)|, Word(Padded(last)), Word(Padded(last'));
    UpdateInAppend(Words(front), [before], 0, after);
    assert [before][0 := after] == [after];
    NoWeight(after - before);
    OneWordChangeIsUnnoticedIff(front + last, front + last', n, after);
  }

  lemma NoWeight(change: int)
    ensures (0 * change) % U32 == 0
  {
  }

  lemma PaddedWord(bytes: seq<Byte>)
    requires 1 <= |bytes| <= 4
    ensures |Padded(bytes)| == 4
  {
  }

  lemma OneWord(bytes: seq<Byte>)
    requires |bytes| == 4
    ensures Words(bytes) == [Word(bytes)]
  {
    assert bytes[..4] == bytes && bytes[4..] == [];
  }

  /** Of two words the first is the checksum, read in base 256 from its first byte on. */
  lemma FirstOfTwoWordsIsChecksum(first: seq<Byte>, last: seq<Byte>)
    requires |first| == |last| == 4
    ensures var b0: int, b1: int, b2: int, b3: int := first[0], first[1], first[2], first[3];
            Fletcher(first + last) == ((b0 * 256 + b1) * 256 + b2) * 256 + b3
  {
    WordIsBase256(first);
    hide Word;
    WordsOfPaddedAppend(first, last);
    PaddedWord(last);
    OneWord(first);
    OneWord(Padded(last));
    var words := Words(Padded(first + last));
    assert words == [Word(first), Word(Padded(last))];
    assert words[1..] == [Word(Padded(last))] && words[1..][1..] == [];
    OneTime(|words| - 1, words[0]);
    OneTime(1, words[1] * (|words[1..]| - 1));
    assert WeightedSum(words[1..]) == 0;
    assert WeightedSum(words) == words[0];
    FletcherOf(first + last);
  }

  lemma OneTime(n: int, x: int)
    requires n == 1
    ensures n * x == x
  {
  }

  lemma WordIsBase256(bytes: seq<Byte>)
    requires |bytes| == 4
    ensures var b0: int, b1: int, b2: int, b3: int := bytes[0], bytes[1], bytes[2], bytes[3];
            Word(bytes) == ((b0 * 256 + b1) * 256 + b2) * 256 + b3 < U32
  {
  }

  // ----- A short call is observable -----

  const PROBE_ZERO: seq<Byte> := [0, 0, 0, 0, 0, 0, 0, 0]
  const PROBE_ONE: seq<Byte> := [0, 0, 0, 0, 1, 0, 0, 0]

  lemma WordsOfPaddedAppend(a: seq<Byte>, b: seq<Byte>)
    requires |a| % 4 == 0
    ensures Words(Padded(a + b)) == Words(a) + Words(Padded(b))
  {
    PaddedOfAppend(a, b);
    WordsOfAppend(a, Padded(b));
  }

  lemma PaddedOfAppend(a: seq<Byte>, b: seq<Byte>)
    requires |a| % 4 == 0
    ensures Padded(a + b) == a + Padded(b)
  {
    assert |a + b| % 4 == |b| % 4;
  }

  lemma TwoWords(bytes: seq<Byte>)
    requires |bytes| == 8
    ensures Words(bytes) == [Word(bytes[..4]), Word(bytes[4..8])]
  {
    OneWord(bytes[4..]);
  }

  lemma ThreeWords(bytes: seq<Byte>)
    requires |bytes| == 12
    ensures Words(bytes) == [Word(bytes[..4]), Word(bytes[4..8]), Word(bytes[8..])]
  {
    TwoWords(bytes[4..]);
    assert bytes[4..][..4] == bytes[4..8] && bytes[4..][4..8] == bytes[8..];
  }

  /** Without the lost bytes, the two probes give the same digest. */
  lemma ProbesAgree(whole: seq<Byte>)
    requires |whole| % 4 == 0
    ensures Fletcher(whole + PROBE_ZERO) == Fletcher(whole + PROBE_ONE)
  {
    WordsOfPaddedAppend(whole, PROBE_ZERO);
    WordsOfPaddedAppend(whole, PROBE_ONE);
    TwoWords(PROBE_ZERO);
    TwoWords(PROBE_ONE);
    var words := Words(Padded(whole + PROBE_ZERO));
    var n := |Words(whole)|;
    assert Words(Padded(whole + PROBE_ONE)) == words[n + 1 := Word(PROBE_ONE[4..8])];
    WordChangeIsWeighted(words, n + 1, Word(PROBE_ONE[4..8]));
  }

  /** Behind one to three lost bytes, they do not. */
  lemma ProbesDiffer(whole: seq<Byte>, lost: seq<Byte>)
    requires |whole| % 4 == 0 && 1 <= |lost| <= 3
    ensures Fletcher(whole + lost + PROBE_ZERO) != Fletcher(whole + lost + PROBE_ONE)
  {
    var z, v := ProbeWords(lost);
    SecondWordShows(whole, lost + PROBE_ZERO, lost + PROBE_ONE, z, v);
    assert whole + lost + PROBE_ZERO == whole + (lost + PROBE_ZERO);
    assert whole + lost + PROBE_ONE == whole + (lost + PROBE_ONE);
  }

  lemma SecondWordShows(whole: seq<Byte>, zero: seq<Byte>, one: seq<Byte>, z: nat, v: nat)
    requires |whole| % 4 == 0 && 0 < v - z < U32
    requires |Words(Padded(zero))| == 3 && Words(Padded(zero))[1] == z
    requires Words(Padded(one)) == Words(Padded(zero))[1 := v]
    ensures Fletcher(whole + zero) != Fletcher(whole + one)
  {
    hide *;
    WordsOfPaddedAppend(whole, zero);
    WordsOfPaddedAppend(whole, one);
    FletcherOf(whole + zero);
    FletcherOf(whole + one);
    var front, tail := Words(whole), Words(Padded(zero));
    UpdateInAppend(front, tail, 1, v);
    PenultimateChange(front + tail, v);
    SmallChangeShows(WeightedSum(front + tail), v - z);
  }

  lemma PenultimateChange(words: seq<nat>, v: nat)
    requires |words| >= 2
    ensures WeightedSum(words[|words| - 2 := v]) == WeightedSum(words) + (v - words[|words| - 2])
  {
    var i := |words| - 2;
    WordChangeIsWeighted(words, i, v);
    assert |words| - 1 - i == 1;
  }

  lemma UpdateInAppend(front: seq<nat>, tail: seq<nat>, i: nat, v: nat)
    requires i < |tail|
    ensures (front + tail)[|front| + i := v] == front + tail[i := v]
    ensures (front + tail)[|front| + i] == tail[i]
  {
  }

  lemma ProbeWords(lost: seq<Byte>) returns (z: nat, v: nat)
    requires 1 <= |lost| <= 3
    ensures var words := Words(Padded(lost + PROBE_ZERO));
            && |words| == 3 && words[1] == z
            && Words(Padded(lost + PROBE_ONE)) == words[1 := v]
    ensures 0 < v - z < U32
  {
    var zero, one := Padded(lost + PROBE_ZERO), Padded(lost + PROBE_ONE);
    ThreeWords(zero);
    ThreeWords(one);
    assert zero[..4] == one[..4] && zero[8..] == one[8..];
    ProbeWord(lost, zero, one);
    z, v := Word(zero[4..8]), Word(one[4..8]);
  }

  lemma ProbeWord(lost: seq<Byte>, zero: seq<Byte>, one: seq<Byte>)
    requires 1 <= |lost| <= 3 && zero == Padded(lost + PROBE_ZERO) && one == Padded(lost + PROBE_ONE)
    ensures 0 < Word(one[4..8]) - Word(zero[4..8]) < U32
  {
    var t := |lost|;
    assert forall i :: 0 <= i < 4 ==> zero[4..8][i] == 0;
    assert forall i :: 0 <= i < 4 ==> one[4..8][i] == if i == t then 1 else 0;
  }

  lemma SmallChangeShows(sum: nat, change: int)
    requires 0 < change < U32
    ensures (sum + change) % U32 != sum % U32
  {
  }

  /** Three more bytes complete any pending word, so they are a fair probe of what a context holds. */
  ghost predicate BehavesAs(c: Context, bytes: seq<Byte>)
    requires c.Valid()
  {
    forall further: seq<Byte> :: |further| >= 3 ==> Finalize(Digest(c, further)) == Fletcher(bytes + further)
  }

  /**
   A call is indistinguishable from appending its data, whatever is digested afterwards,
   exactly when it completes the pending word: a length check the caller can make beforehand.
   */
  lemma CallIsHarmlessIff(c: Context, bytes: seq<Byte>, data: seq<Byte>)
    requires Represents(c, bytes)
    ensures BehavesAs(Digest(c, data), bytes + data) <==> Completes(|bytes|, |data|)
  {
    if Completes(|bytes|, |data|) {
      DigestAppendsIff(c, bytes, data);
      RepresentedBehaves(Digest(c, data), bytes + data);
    } else {
      hide Completes;
      ShortCallShows(c, bytes, data);
    }
  }

  lemma ShortCallShows(c: Context, bytes: seq<Byte>, data: seq<Byte>)
    requires Represents(c, bytes) && !Completes(|bytes|, |data|)
    ensures c.Valid() && !BehavesAs(Digest(c, data), bytes + data)
  {
    RepresentedIsValid(c, bytes);
    LostBytes(bytes, data);
    hide Represents;
    hide Completes;
    hide Digest;
    hide Finalize;
    hide Fletcher;
    hide Whole;
    hide Rest;
    var whole, lost := Whole(bytes), Rest(bytes) + data;
    ProbesAgree(whole);
    ProbesDiffer(whole, lost);
    ProbeAfterShortCall(c, bytes, data, PROBE_ZERO);
    ProbeAfterShortCall(c, bytes, data, PROBE_ONE);
    assert |PROBE_ZERO| == |PROBE_ONE| == 8;
    var after := Digest(c, data);
    assert Finalize(Digest(after, PROBE_ZERO)) != Fletcher(bytes + data + PROBE_ZERO)
        || Finalize(Digest(after, PROBE_ONE)) != Fletcher(bytes + data + PROBE_ONE);
  }

  lemma LostBytes(bytes: seq<Byte>, data: seq<Byte>)
    requires !Completes(|bytes|, |data|)
    ensures |Whole(bytes)| % 4 == 0 && 1 <= |Rest(bytes) + data| <= 3
  {
  }

  lemma ProbeAfterShortCall(c: Context, bytes: seq<Byte>, data: seq<Byte>, probe: seq<Byte>)
    requires Represents(c, bytes) && !Completes(|bytes|, |data|)
    ensures Finalize(Digest(Digest(c, data), probe)) == Fletcher(Whole(bytes) + probe)
    ensures bytes + data + probe == Whole(bytes) + (Rest(bytes) + data) + probe
  {
    ShortCallForgets(c, bytes, data);
    DigestThenFinalize(Digest(c, data), Whole(bytes), probe);
    Regroup(bytes, data, probe);
  }

  lemma DigestThenFinalize(c: Context, bytes: seq<Byte>, data: seq<Byte>)
    requires Represents(c, bytes) && Completes(|bytes|, |data|)
    ensures Finalize(Digest(c, data)) == Fletcher(bytes + data)
  {
    DigestAppendsIff(c, bytes, data);
    FinalizeIsFletcher(Digest(c, data), bytes + data);
  }

  lemma Regroup(bytes: seq<Byte>, data: seq<Byte>, probe: seq<Byte>)
    ensures bytes + data + probe == Whole(bytes) + (Rest(bytes) + data) + probe
  {
    assert bytes == Whole(bytes) + Rest(bytes);
  }

  lemma WholeWordsStep(c: Context, data: seq<Byte>)
    ensures DigestWholeWords(c, data)
         == if |data| < 4 then c else DigestWholeWords(DigestWord(c, Word(data[..4])), data[4..])
  {
  }

  lemma RestIs(data: seq<Byte>, rest: seq<Byte>)
    requires |rest| < 4 && |rest| <= |data| && |rest| % 4 == |data| % 4 && rest == data[|data| - |rest|..]
    ensures rest == Rest(data)
  {
    assert |rest| == |data| % 4;
  }

  lemma SuffixStep(data: seq<Byte>, rest: seq<Byte>)
    requires 4 <= |rest| <= |data| && rest == data[|data| - |rest|..]
    ensures rest[4..] == data[|data| - (|rest| - 4)..]
    ensures (|rest| - 4) % 4 == |rest| % 4
  {
  }

  // ----- Which splits are harmless -----

  /** What a context stands for after some calls: each call appends its data, or forgets the pending word. */
  function Absorbed(bytes: seq<Byte>, chunks: seq<seq<Byte>>): seq<Byte>
    decreases |chunks|
  {
    if chunks == [] then bytes
    else Absorbed(if Completes(|bytes|, |chunks[0]|) then bytes + chunks[0] else Whole(bytes), chunks[1..])
  }

  lemma {:induction false} EveryCallIsAbsorbed(c: Context, bytes: seq<Byte>, chunks: seq<seq<Byte>>)
    requires Represents(c, bytes)
    ensures Represents(DigestAll(c, chunks), Absorbed(bytes, chunks))
    decreases |chunks|
  {
    hide Represents;
    hide Digest;
    if chunks != [] {
      OneCallIsAbsorbed(c, bytes, chunks[0]);
      EveryCallIsAbsorbed(Digest(c, chunks[0]),
                          if Completes(|bytes|, |chunks[0]|) then bytes + chunks[0] else Whole(bytes), chunks[1..]);
    }
  }

  lemma OneCallIsAbsorbed(c: Context, bytes: seq<Byte>, data: seq<Byte>)
    requires Represents(c, bytes)
    ensures c.Valid()
    ensures Represents(Digest(c, data), if Completes(|bytes|, |data|) then bytes + data else Whole(bytes))
  {
    hide Digest;
    if Completes(|bytes|, |data|) {
      DigestAppendsIff(c, bytes, data);
    } else {
      ShortCallForgets(c, bytes, data);
    }
  }

  predicate HasLengths(chunks: seq<seq<Byte>>, lengths: seq<nat>) {
    |chunks| == |lengths| && forall i :: 0 <= i < |chunks| ==> |chunks[i]| == lengths[i]
  }

  /** A split is safe by its lengths alone. */
  predicate SafeLengths(pending: nat, lengths: seq<nat>)
    decreases |lengths|
  {
    lengths == [] || (Completes(pending, lengths[0]) && SafeLengths(pending + lengths[0], lengths[1..]))
  }

  lemma {:induction false} SafeByLengths(pending: nat, chunks: seq<seq<Byte>>, lengths: seq<nat>)
    requires HasLengths(chunks, lengths)
    ensures SafeSplit(pending, chunks) <==> SafeLengths(pending, lengths)
    decreases |chunks|
  {
    if chunks != [] {
      SafeByLengths(pending + |chunks[0]|, chunks[1..], lengths[1..]);
    }
  }

  /** Where the first word begins that a call forgets. */
  function LossAt(pending: nat, lengths: seq<nat>): nat
    requires !SafeLengths(pending, lengths)
    decreases |lengths|
  {
    if !Completes(pending, lengths[0]) then pending - pending % 4 else LossAt(pending + lengths[0], lengths[1..])
  }

  function Sum(lengths: seq<nat>): nat {
    if lengths == [] then 0 else lengths[0] + Sum(lengths[1..])
  }

  function Chop(data: seq<Byte>, lengths: seq<nat>): (chunks: seq<seq<Byte>>)
    requires |data| == Sum(lengths)
    ensures HasLengths(chunks, lengths)
  {
    if lengths == [] then [] else [data[..lengths[0]]] + Chop(data[lengths[0]..], lengths[1..])
  }

  lemma {:induction false} ChopJoins(data: seq<Byte>, lengths: seq<nat>)
    requires |data| == Sum(lengths)
    ensures Concat(Chop(data, lengths)) == data
  {
    if lengths != [] {
      hide Chop;
      ChopStep(data, lengths);
      ChopJoins(data[lengths[0]..], lengths[1..]);
    }
  }

  lemma {:induction false} LossIsEarly(pending: nat, lengths: seq<nat>)
    requires !SafeLengths(pending, lengths)
    ensures LossAt(pending, lengths) % 4 == 0 && LossAt(pending, lengths) < pending + Sum(lengths)
    decreases |lengths|
  {
    if Completes(pending, lengths[0]) {
      LossIsEarly(pending + lengths[0], lengths[1..]);
    }
  }

  predicate ZeroBut(bytes: seq<Byte>, at: int) {
    forall i :: 0 <= i < |bytes| && i != at ==> bytes[i] == 0
  }

  lemma {:induction false} ZerosStay(bytes: seq<Byte>, data: seq<Byte>, lengths: seq<nat>)
    requires |data| == Sum(lengths) && ZeroBut(bytes, -1) && ZeroBut(data, -1)
    ensures ZeroBut(Absorbed(bytes, Chop(data, lengths)), -1)
    decreases |lengths|
  {
    if lengths != [] {
      var chunks := Chop(data, lengths);
      assert chunks[1..] == Chop(data[lengths[0]..], lengths[1..]);
      ZerosStay(if Completes(|bytes|, |chunks[0]|) then bytes + chunks[0] else Whole(bytes), data[lengths[0]..],
                lengths[1..]);
    }
  }

  lemma ChopStep(data: seq<Byte>, lengths: seq<nat>)
    requires |data| == Sum(lengths) && lengths != []
    ensures lengths[0] <= |data| && |data[lengths[0]..]| == Sum(lengths[1..])
    ensures data == data[..lengths[0]] + data[lengths[0]..]
    ensures var chunks := Chop(data, lengths);
            && chunks != [] && chunks[0] == data[..lengths[0]]
            && chunks[1..] == Chop(data[lengths[0]..], lengths[1..])
  {
  }

  lemma AbsorbedStep(bytes: seq<Byte>, chunks: seq<seq<Byte>>)
    requires chunks != []
    ensures Absorbed(bytes, chunks)
         == Absorbed(if Completes(|bytes|, |chunks[0]|) then bytes + chunks[0] else Whole(bytes), chunks[1..])
  {
  }

  lemma OnlyMarkIsLost(bytes: seq<Byte>, first: seq<Byte>, rest: seq<Byte>)
    requires ZeroBut(bytes + (first + rest), |bytes| - |bytes| % 4) && !Completes(|bytes|, |first|)
    ensures ZeroBut(Whole(bytes), -1) && ZeroBut(rest, -1)
  {
    var at, all := |bytes| - |bytes| % 4, bytes + (first + rest);
    forall i | 0 <= i < at ensures Whole(bytes)[i] == 0 { assert all[i] == bytes[i]; }
    forall i | 0 <= i < |rest| ensures rest[i] == 0 { assert all[|bytes| + |first| + i] == rest[i]; }
  }

  /** If only the first byte to be forgotten is set, the context ends up standing for nothing but zeros. */
  lemma {:induction false} MarkIsForgotten(bytes: seq<Byte>, data: seq<Byte>, lengths: seq<nat>)
    requires |data| == Sum(lengths) && !SafeLengths(|bytes|, lengths)
    requires ZeroBut(bytes + data, LossAt(|bytes|, lengths))
    ensures ZeroBut(Absorbed(bytes, Chop(data, lengths)), -1)
    decreases |lengths|
  {
    hide Chop;
    hide Absorbed;
    var chunks := Chop(data, lengths);
    var first, rest := data[..lengths[0]], data[lengths[0]..];
    ChopStep(data, lengths);
    if Completes(|bytes|, lengths[0]) {
      assert bytes + first + rest == bytes + data;
      AbsorbedStep(bytes, chunks);
      MarkIsForgotten(bytes + first, rest, lengths[1..]);
    } else {
      OnlyMarkIsLost(bytes, first, rest);
      AbsorbedStep(bytes, chunks);
      ZerosStay(Whole(bytes), rest, lengths[1..]);
    }
  }

  // Checksums of zeros, and of zeros with one byte set.

  lemma {:induction false} WordsAt(bytes: seq<Byte>)
    requires |bytes| % 4 == 0
    ensures |Words(bytes)| == |bytes| / 4
    ensures forall i :: 0 <= i < |Words(bytes)| ==> Words(bytes)[i] == Word(bytes[4 * i..4 * i + 4])
  {
    hide Word;
    if bytes != [] {
      WordsAt(bytes[4..]);
      WordsFirst(bytes);
      hide Words;
      forall i | 1 <= i < |Words(bytes)| ensures Words(bytes)[i] == Word(bytes[4 * i..4 * i + 4]) {
        SliceBehindWord(bytes, i);
      }
    }
  }

  lemma SliceBehindWord(bytes: seq<Byte>, i: nat)
    requires 1 <= i && 4 * i + 4 <= |bytes|
    ensures bytes[4..][4 * (i - 1)..4 * (i - 1) + 4] == bytes[4 * i..4 * i + 4]
  {
  }

  lemma {:induction false} ZeroWordsWeighNothing(words: seq<nat>)
    requires forall i :: 0 <= i < |words| ==> words[i] == 0
    ensures WeightedSum(words) == 0
  {
    if words != [] {
      ZeroWordsWeighNothing(words[1..]);
    }
  }

  lemma PaddedStaysZero(bytes: seq<Byte>, at: int)
    requires ZeroBut(bytes, at) && at < |bytes|
    ensures ZeroBut(Padded(bytes), at) && |Padded(bytes)| % 4 == 0 && |bytes| <= |Padded(bytes)| < |bytes| + 4
    ensures 0 <= at ==> Padded(bytes)[at] == bytes[at]
  {
  }

  lemma ZeroWords(bytes: seq<Byte>)
    requires |bytes| % 4 == 0 && ZeroBut(bytes, -1)
    ensures forall i :: 0 <= i < |Words(bytes)| ==> Words(bytes)[i] == 0
  {
    WordsAt(bytes);
    hide Words;
    forall i | 0 <= i < |Words(bytes)| ensures Words(bytes)[i] == 0 {
      ZeroWord(bytes[4 * i..4 * i + 4]);
    }
  }

  lemma ZeroWord(bytes: seq<Byte>)
    requires |bytes| == 4 && bytes[1] == bytes[2] == bytes[3] == 0
    ensures bytes[0] == 0 ==> Word(bytes) == 0
    ensures bytes[0] == 1 ==> Word(bytes) == 0x100_0000
  {
  }

  lemma FletcherOfZeros(bytes: seq<Byte>)
    requires ZeroBut(bytes, -1)
    ensures Fletcher(bytes) == 0
  {
    PaddedStaysZero(bytes, -1);
    ZeroWords(Padded(bytes));
    ZeroWordsWeighNothing(Words(Padded(bytes)));
  }

  /** A one at the start of a word weighs 2^24 for each word behind it. */
  lemma FletcherOfMark(bytes: seq<Byte>, at: nat)
    requires at < |bytes| && at % 4 == 0 && bytes[at] == 1 && ZeroBut(bytes, at)
    ensures at / 4 < |Padded(bytes)| / 4
    ensures Fletcher(bytes) == ((|Padded(bytes)| / 4 - 1 - at / 4) * 0x100_0000) % U32
  {
    var padded := Padded(bytes);
    PaddedStaysZero(bytes, at);
    FletcherOf(bytes);
    var words := Words(padded);
    MarkedWords(padded, at);
    hide *;
    var zeros := seq(|words|, _ => 0);
    assert words == zeros[at / 4 := 0x100_0000];
    ZeroWordsWeighNothing(zeros);
    WordChangeIsWeighted(zeros, at / 4, 0x100_0000);
  }

  lemma MarkedWords(bytes: seq<Byte>, at: nat)
    requires |bytes| % 4 == 0 && at < |bytes| && at % 4 == 0 && bytes[at] == 1 && ZeroBut(bytes, at)
    ensures |Words(bytes)| == |bytes| / 4
    ensures forall k :: 0 <= k < |Words(bytes)| ==> Words(bytes)[k] == if k == at / 4 then 0x100_0000 else 0
  {
    hide *;
    WordsAt(bytes);
    forall k | 0 <= k < |Words(bytes)| ensures Words(bytes)[k] == if k == at / 4 then 0x100_0000 else 0 {
      MarkedWord(bytes, at, k);
    }
  }

  lemma MarkedWord(bytes: seq<Byte>, at: nat, k: nat)
    requires at < |bytes| && at % 4 == 0 && bytes[at] == 1 && ZeroBut(bytes, at) && 4 * k + 4 <= |bytes|
    ensures Word(bytes[4 * k..4 * k + 4]) == if k == at / 4 then 0x100_0000 else 0
  {
    hide Word;
    var i, word := at / 4, bytes[4 * k..4 * k + 4];
    assert at == 4 * i;
    assert word[0] == bytes[4 * k] && word[1] == bytes[4 * k + 1];
    assert word[2] == bytes[4 * k + 2] && word[3] == bytes[4 * k + 3];
    ZeroWord(word);
  }

  /** Of two weights in a row, one does not vanish. */
  lemma OneOfTwoShows(weight: nat)
    ensures (weight * 0x100_0000) % U32 != 0 || ((weight + 1) * 0x100_0000) % U32 != 0
  {
  }

  lemma PaddedLengths(bytes: seq<Byte>, more: seq<Byte>)
    requires |more| == |bytes| + 4
    ensures |Padded(more)| == |Padded(bytes)| + 4
  {
  }

  /** A set byte that is forgotten is missed by zeros digested afterwards. */
  lemma MarkIsMissed(c: Context, absorbed: seq<Byte>, bytes: seq<Byte>, at: nat)
    requires Represents(c, absorbed) && ZeroBut(absorbed, -1)
    requires at < |bytes| && at % 4 == 0 && bytes[at] == 1 && ZeroBut(bytes, at)
    ensures c.Valid() && !BehavesAs(c, bytes)
  {
    hide Digest;
    hide Finalize;
    hide Fletcher;
    hide Padded;
    hide ZeroBut;
    hide Represents;
    ZerosMiss(c, absorbed, bytes, at, 3);
    ZerosMiss(c, absorbed, bytes, at, 7);
    PaddedLengths(bytes + Zeros(3), bytes + Zeros(7));
    NextWeight(|Padded(bytes + Zeros(3))|);
    var weight := |Padded(bytes + Zeros(3))| / 4 - 1 - at / 4;
    OneOfTwoShows(weight);
    assert Finalize(Digest(c, Zeros(3))) != Fletcher(bytes + Zeros(3))
        || Finalize(Digest(c, Zeros(7))) != Fletcher(bytes + Zeros(7));
  }

  lemma NextWeight(n: nat)
    ensures (n + 4) / 4 == n / 4 + 1
  {
  }

  lemma MoreZeros(bytes: seq<Byte>, at: int, n: nat)
    requires ZeroBut(bytes, at) && at < |bytes|
    ensures ZeroBut(bytes + Zeros(n), at) && (0 <= at ==> (bytes + Zeros(n))[at] == bytes[at])
  {
  }

  lemma ThreeComplete(pending: nat, n: nat)
    requires n >= 3
    ensures Completes(pending, n)
  {
  }

  lemma RepresentedIsValid(c: Context, bytes: seq<Byte>)
    requires Represents(c, bytes)
    ensures c.Valid()
  {
  }

  lemma ZerosMiss(c: Context, absorbed: seq<Byte>, bytes: seq<Byte>, at: nat, n: nat)
    requires Represents(c, absorbed) && ZeroBut(absorbed, -1) && n >= 3
    requires at < |bytes| && at % 4 == 0 && bytes[at] == 1 && ZeroBut(bytes, at)
    ensures at / 4 < |Padded(bytes + Zeros(n))| / 4
    ensures c.Valid() && Finalize(Digest(c, Zeros(n))) == 0
    ensures Fletcher(bytes + Zeros(n)) == ((|Padded(bytes + Zeros(n))| / 4 - 1 - at / 4) * 0x100_0000) % U32
  {
    hide *;
    RepresentedIsValid(c, absorbed);
    MoreZeros(absorbed, -1, n);
    MoreZeros(bytes, at, n);
    ThreeComplete(|absorbed|, n);
    DigestThenFinalize(c, absorbed, Zeros(n));
    FletcherOfZeros(absorbed + Zeros(n));
    FletcherOfMark(bytes + Zeros(n), at);
  }

  /**
   A split is harmless for all contents, whatever is digested afterwards, exactly when each call meets an
   empty word buffer or completes the pending word: a condition on the lengths of the calls alone.
   */
  lemma SplitIsHarmlessIff(lengths: seq<nat>)
    ensures SafeLengths(0, lengths) <==>
            forall chunks: seq<seq<Byte>> :: HasLengths(chunks, lengths) ==>
              BehavesAs(DigestAll(INITIAL, chunks), Concat(chunks))
  {
    hide *;
    InitialRepresentsNothing();
    if SafeLengths(0, lengths) {
      forall chunks: seq<seq<Byte>> | HasLengths(chunks, lengths)
        ensures BehavesAs(DigestAll(INITIAL, chunks), Concat(chunks))
      {
        SafeByLengths(0, chunks, lengths);
        DigestAllAppends(INITIAL, [], chunks);
        assert [] + Concat(chunks) == Concat(chunks);
        RepresentedBehaves(DigestAll(INITIAL, chunks), Concat(chunks));
      }
    } else {
      var data := ForgottenMark(lengths);
    }
  }

  lemma RepresentedBehaves(c: Context, bytes: seq<Byte>)
    requires Represents(c, bytes)
    ensures c.Valid() && BehavesAs(c, bytes)
  {
    hide Digest;
    hide Finalize;
    hide Fletcher;
    forall further: seq<Byte> | |further| >= 3 ensures Finalize(Digest(c, further)) == Fletcher(bytes + further) {
      DigestThenFinalize(c, bytes, further);
    }
  }

  lemma ForgottenMark(lengths: seq<nat>) returns (data: seq<Byte>)
    requires !SafeLengths(0, lengths)
    ensures |data| == Sum(lengths) && !BehavesAs(DigestAll(INITIAL, Chop(data, lengths)), Concat(Chop(data, lengths)))
  {
    hide DigestAll;
    hide BehavesAs;
    hide Absorbed;
    hide Chop;
    hide SafeLengths;
    hide LossAt;
    var at := LossAt(0, lengths);
    LossIsEarly(0, lengths);
    data := Zeros(Sum(lengths))[at := 1];
    assert [] + data == data;
    MarkIsForgotten([], data, lengths);
    ChopJoins(data, lengths);
    InitialRepresentsNothing();
    EveryCallIsAbsorbed(INITIAL, [], Chop(data, lengths));
    MarkIsMissed(DigestAll(INITIAL, Chop(data, lengths)), Absorbed([], Chop(data, lengths)), data, at);
  }

  // ----- The context object -----

  class ChecksumContext {
    var sumHi: nat
    var sumLo: nat
    var wordBuffer: seq<Byte>
    var wordBufferCapacity: nat

    function State(): Context
      reads this
    {
      Context(sumHi, sumLo, wordBuffer, wordBufferCapacity)
    }

    constructor ()
      ensures State() == INITIAL
    {
      sumHi, sumLo, wordBuffer, wordBufferCapacity := 0, 0, [0, 0, 0, 0], 4;
    }

    method Initialize()
      modifies this
      ensures State() == INITIAL
    {
      sumHi, sumLo := 0, 0;
      wordBuffer := [0, 0, 0, 0];
      wordBufferCapacity := 4;
    }

    method DigestOneWord(word: nat)
      modifies this`sumHi, this`sumLo
      ensures State() == DigestWord(old(State()), word)
    {
      sumHi := (sumHi + word) % U32;
      sumLo := (sumLo + sumHi) % U32;
    }

    method FillBuffer(data: seq<Byte>) returns (taken: nat)
      requires State().Valid()
      modifies this
      ensures (State(), taken) == FillWordBuffer(old(State()), data)
    {
      if wordBufferCapacity == 4 {
        return 0;
      }
      if |data| < wordBufferCapacity {
        wordBuffer := Store(wordBuffer, 4 - wordBufferCapacity, data);
        wordBufferCapacity := wordBufferCapacity - |data|;
        return |data|;
      }
      taken := wordBufferCapacity;
      wordBuffer := Store(wordBuffer, 4 - wordBufferCapacity, data[..taken]);
      wordBufferCapacity := 4;
      DigestOneWord(Word(wordBuffer));
    }

    method DigestWhole(data: seq<Byte>) returns (rest: seq<Byte>)
      requires State().Valid()
      modifies this`sumHi, this`sumLo
      ensures State() == DigestWholeWords(old(State()), data)
      ensures rest == Rest(data)
    {
      hide DigestWholeWords;
      hide Rest;
      rest := data;
      ghost var result := DigestWholeWords(State(), data);
      while |rest| >= 4
        invariant State().Valid()
        invariant DigestWholeWords(State(), rest) == result
        invariant |rest| <= |data| && |rest| % 4 == |data| % 4
        invariant rest == data[|data| - |rest|..]
      {
        SuffixStep(data, rest);
        ghost var before := State();
        DigestOneWord(Word(rest[..4]));
        WholeWordsStep(before, rest);
        rest := rest[4..];
      }
      WholeWordsStep(State(), rest);
      RestIs(data, rest);
    }

    method DigestData(data: seq<Byte>)
      requires State().Valid()
      modifies this
      ensures State() == Digest(old(State()), data)
    {
      var taken := FillBuffer(data);
      var rest := DigestWhole(data[taken..]);
      wordBuffer := Store(wordBuffer, 0, rest);
      wordBufferCapacity := 4 - |rest|;
    }

    method FlushBuffer()
      requires State().Valid()
      modifies this
      ensures State() == FlushWordBuffer(old(State()))
    {
      if wordBufferCapacity == 4 {
        return;
      }
      wordBuffer := Store(wordBuffer, 4 - wordBufferCapacity, Zeros(wordBufferCapacity));
      wordBufferCapacity := 4;
      DigestOneWord(Word(wordBuffer));
    }

    method FinalizeDigest() returns (digest: nat)
      requires State().Valid()
      modifies this
      ensures digest == Finalize(old(State()))
      ensures forall bytes :: old(Represents(State(), bytes)) ==> digest == Fletcher(bytes)
    {
      ghost var before := State();
      FlushBuffer();
      sumHi := (sumLo - sumHi) % U32;
      digest := sumHi;
      forall bytes | Represents(before, bytes) ensures digest == Fletcher(bytes) {
        FinalizeIsFletcher(before, bytes);
      }
    }
  }
}
