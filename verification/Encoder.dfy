/**
 The colour-table encoder of the boot logo
 (rescompiler/imagecompiler/src/tux64-imagecompiler/encoder.c).
 */
module Encoder {
  import opened Bytes

  const COLORS: nat := 15
  const EMPTY_COLOR: nat := 0
  const INVALID_INDEX: nat := 0xff

  // ----- Pixels -----

  /** Five bits a channel and one bit of alpha; what is less than half opaque becomes zero. */
  function Rgba5551(r: Byte, g: Byte, b: Byte, a: Byte): (pixel: nat)
    ensures pixel < 0x1_0000
    ensures pixel % 2 == (if a < 0x80 then 0 else 1) && (a < 0x80 ==> pixel == 0)
  {
    var r': int, g': int, b': int := r / 8, g / 8, b / 8;
    if a < 0x80 then 0 else 1 + r' * 0x800 + g' * 0x40 + b' * 2
  }

  /** An opaque pixel keeps the upper five bits of each channel, each in its own place. */
  lemma Rgba5551KeepsChannels(r: Byte, g: Byte, b: Byte, a: Byte)
    requires a >= 0x80
    ensures var pixel := Rgba5551(r, g, b, a);
            pixel / 0x800 == r / 8 && pixel / 0x40 % 0x20 == g / 8 && pixel / 2 % 0x20 == b / 8
  {
    FieldsOf(r / 8, g / 8, b / 8);
  }

  lemma FieldsOf(r: nat, g: nat, b: nat)
    requires r < 0x20 && g < 0x20 && b < 0x20
    ensures var pixel := 1 + r * 0x800 + g * 0x40 + b * 2;
            pixel / 0x800 == r && pixel / 0x40 % 0x20 == g && pixel / 2 % 0x20 == b
  {
    var pixel := 1 + r * 0x800 + g * 0x40 + b * 2;
    assert pixel / 0x40 == 0x20 * r + g;
    assert pixel / 2 == 0x400 * r + 0x20 * g + b;
  }

  function Opaque(pixel: nat): bool {
    pixel % 2 == 1
  }

  /** The two neighbouring pixels that share a byte of the encoded image. */
  datatype Pair = Pair(first: nat, second: nat)

  function PairAt(input: seq<Byte>, at: nat): Pair
    requires at + 8 <= |input|
  {
    Pair(Rgba5551(input[at], input[at + 1], input[at + 2], input[at + 3]),
         Rgba5551(input[at + 4], input[at + 5], input[at + 6], input[at + 7]))
  }

  function Pairs(input: seq<Byte>): (pairs: seq<Pair>)
    requires |input| % 8 == 0
    ensures |pairs| == |input| / 8
  {
    seq(|input| / 8, k requires 0 <= k < |input| / 8 => PairAt(input, 8 * k))
  }

  // ----- The colour table -----

  datatype Loaded = Loaded(index: nat, table: seq<nat>)

  /** The search for a pixel's colour, downwards from entry `i - 1`; an empty entry is taken. */
  function Scan(table: seq<nat>, pixel: nat, i: nat): (r: Loaded)
    requires |table| == COLORS && i <= COLORS
    ensures |r.table| == COLORS && (r.index <= i || r.index == INVALID_INDEX)
  {
    if i == 0 then Loaded(INVALID_INDEX, table)
    else if table[i - 1] == EMPTY_COLOR then Loaded(i, table[i - 1 := pixel])
    else if table[i - 1] == pixel then Loaded(i, table)
    else Scan(table, pixel, i - 1)
  }

  function Load(table: seq<nat>, pixel: nat): (r: Loaded)
    requires |table| == COLORS
    ensures |r.table| == COLORS && (r.index <= COLORS || r.index == INVALID_INDEX)
  {
    if !Opaque(pixel) then Loaded(0, table) else Scan(table, pixel, COLORS)
  }

  // ----- What the table holds: the opaque colours in the order they are first seen -----

  function See(seen: seq<nat>, pixel: nat): seq<nat> {
    if !Opaque(pixel) || pixel in seen then seen else seen + [pixel]
  }

  function SeePair(seen: seq<nat>, pair: Pair): seq<nat> {
    See(See(seen, pair.second), pair.first)
  }

  /** The opaque colours of an image. In each pair the second pixel is loaded first. */
  function Seen(pairs: seq<Pair>): seq<nat> {
    if pairs == [] then [] else SeePair(Seen(pairs[..|pairs| - 1]), pairs[|pairs| - 1])
  }

  /** The colours fit: entry 0 only takes one if it is empty or already that colour. */
  predicate Fits(entry0: nat, seen: seq<nat>) {
    |seen| < COLORS || (|seen| == COLORS && (entry0 == EMPTY_COLOR || entry0 == seen[COLORS - 1]))
  }

  /** Colours fill the table from its end. */
  function TableOf(entry0: nat, seen: seq<nat>): (table: seq<nat>)
    requires |seen| <= COLORS
    ensures |table| == COLORS
  {
    seq(COLORS, i requires 0 <= i < COLORS =>
        if COLORS - 1 - i < |seen| then seen[COLORS - 1 - i] else if i == 0 then entry0 else EMPTY_COLOR)
  }

  function Position(seen: seq<nat>, pixel: nat): (j: nat)
    requires pixel in seen
    ensures j < |seen| && seen[j] == pixel
  {
    if seen[0] == pixel then 0 else 1 + Position(seen[1..], pixel)
  }

  ghost predicate Distinct(seen: seq<nat>) {
    && (forall j :: 0 <= j < |seen| ==> Opaque(seen[j]))
    && forall i, j :: 0 <= i < j < |seen| ==> seen[i] != seen[j]
  }

  /** The index of a pixel: 0 for transparency, else where its colour sits. */
  function IndexFor(seen: seq<nat>, pixel: nat): nat
    requires Opaque(pixel) ==> pixel in seen && |seen| <= COLORS
  {
    if !Opaque(pixel) then 0 else COLORS - Position(seen, pixel)
  }

  lemma SeeKeepsDistinct(seen: seq<nat>, pixel: nat)
    requires Distinct(seen)
    ensures Distinct(See(seen, pixel)) && seen <= See(seen, pixel) && (Opaque(pixel) ==> pixel in See(seen, pixel))
  {
  }

  /** The scan passes the colours seen first, one entry each. */
  lemma {:induction false} ScanPasses(entry0: nat, seen: seq<nat>, pixel: nat, j: nat)
    requires |seen| <= COLORS && Distinct(seen) && j <= |seen|
    requires forall k :: 0 <= k < j ==> seen[k] != pixel
    ensures Scan(TableOf(entry0, seen), pixel, COLORS) == Scan(TableOf(entry0, seen), pixel, COLORS - j)
    decreases j
  {
    if j > 0 {
      ScanPasses(entry0, seen, pixel, j - 1);
      assert TableOf(entry0, seen)[COLORS - j] == seen[j - 1];
    }
  }

  /** Loading an opaque pixel: its colour is found or added, or the table is full. */
  lemma LoadSees(entry0: nat, seen: seq<nat>, pixel: nat)
    requires Fits(entry0, seen) && Distinct(seen)
    ensures var r, seen' := Load(TableOf(entry0, seen), pixel), See(seen, pixel);
            if Fits(entry0, seen') then r == Loaded(IndexFor(seen', pixel), TableOf(entry0, seen'))
            else r == Loaded(INVALID_INDEX, TableOf(entry0, seen))
  {
    if Opaque(pixel) {
      if pixel in seen {
        LoadFinds(entry0, seen, pixel);
      } else {
        LoadAdds(entry0, seen, pixel);
      }
    }
  }

  lemma LoadFinds(entry0: nat, seen: seq<nat>, pixel: nat)
    requires Fits(entry0, seen) && Distinct(seen) && pixel in seen
    ensures Scan(TableOf(entry0, seen), pixel, COLORS) == Loaded(COLORS - Position(seen, pixel), TableOf(entry0, seen))
  {
    var j := Position(seen, pixel);
    ScanPasses(entry0, seen, pixel, j);
    assert TableOf(entry0, seen)[COLORS - 1 - j] == pixel;
  }

  lemma {:induction false} PositionOfLast(seen: seq<nat>, pixel: nat)
    requires pixel !in seen
    ensures Position(seen + [pixel], pixel) == |seen|
  {
    if seen != [] {
      PositionOfLast(seen[1..], pixel);
      assert (seen + [pixel])[1..] == seen[1..] + [pixel];
    }
  }

  lemma LoadAdds(entry0: nat, seen: seq<nat>, pixel: nat)
    requires Fits(entry0, seen) && Distinct(seen) && pixel !in seen && Opaque(pixel)
    ensures var r := Scan(TableOf(entry0, seen), pixel, COLORS);
            if Fits(entry0, seen + [pixel])
            then r == Loaded(COLORS - Position(seen + [pixel], pixel), TableOf(entry0, seen + [pixel]))
            else r == Loaded(INVALID_INDEX, TableOf(entry0, seen))
  {
    var table, n := TableOf(entry0, seen), |seen|;
    ScanPasses(entry0, seen, pixel, n);
    PositionOfLast(seen, pixel);
    if n < COLORS {
      var table' := TableOf(entry0, seen + [pixel]);
      assert table' == table[COLORS - 1 - n := pixel];
      if n == COLORS - 1 {
        assert table[0] == entry0;
        assert entry0 == pixel ==> table' == table;
        assert Scan(table, pixel, 1) == if entry0 == EMPTY_COLOR then Loaded(1,
            table[0 := pixel]) else if entry0 == pixel then Loaded(1, table) else Scan(table, pixel, 0);
      }
    }
  }

  // ----- Indices given out early stay valid -----

  lemma {:induction false} PositionIsStable(seen: seq<nat>, later: seq<nat>, pixel: nat)
    requires seen <= later && pixel in seen
    ensures pixel in later && Position(later, pixel) == Position(seen, pixel)
  {
    if seen[0] != pixel {
      PositionIsStable(seen[1..], later[1..], pixel);
    }
  }

  lemma IndexIsStable(seen: seq<nat>, later: seq<nat>, pixel: nat)
    requires seen <= later && |later| <= COLORS && (Opaque(pixel) ==> pixel in seen)
    ensures IndexFor(later, pixel) == IndexFor(seen, pixel)
  {
    if Opaque(pixel) {
      PositionIsStable(seen, later, pixel);
    }
  }

  /** Whatever was in entry 0, an index leads to the colour it was given out for. */
  lemma IndexLeadsToColor(entry0: nat, seen: seq<nat>, pixel: nat)
    requires |seen| <= COLORS && Opaque(pixel) && pixel in seen
    ensures 1 <= IndexFor(seen, pixel) <= COLORS && TableOf(entry0, seen)[IndexFor(seen, pixel) - 1] == pixel
  {
  }

  predicate Knows(seen: seq<nat>, pair: Pair) {
    (Opaque(pair.first) ==> pair.first in seen) && (Opaque(pair.second) ==> pair.second in seen)
  }

  ghost predicate Covers(seen: seq<nat>, pairs: seq<Pair>) {
    forall k :: 0 <= k < |pairs| ==> Knows(seen, pairs[k])
  }

  lemma SeePairGrows(seen: seq<nat>, pair: Pair)
    requires Distinct(seen)
    ensures Distinct(SeePair(seen, pair)) && seen <= SeePair(seen, pair) && Knows(SeePair(seen, pair), pair)
  {
    SeeKeepsDistinct(seen, pair.second);
    SeeKeepsDistinct(See(seen, pair.second), pair.first);
  }

  lemma CoversMore(seen: seq<nat>, later: seq<nat>, pairs: seq<Pair>)
    requires Covers(seen, pairs) && seen <= later
    ensures Covers(later, pairs)
  {
  }

  lemma {:induction false} SeenCovers(pairs: seq<Pair>)
    ensures Distinct(Seen(pairs)) && Covers(Seen(pairs), pairs)
  {
    if pairs != [] {
      var n := |pairs| - 1;
      SeenCovers(pairs[..n]);
      SeePairGrows(Seen(pairs[..n]), pairs[n]);
      CoversMore(Seen(pairs[..n]), Seen(pairs), pairs[..n]);
    }
  }

  lemma SeenStep(pairs: seq<Pair>)
    requires pairs != []
    ensures Seen(pairs) == SeePair(Seen(pairs[..|pairs| - 1]), pairs[|pairs| - 1])
    ensures Seen(pairs[..|pairs| - 1]) <= Seen(pairs)
  {
    SeenCovers(pairs[..|pairs| - 1]);
    SeePairGrows(Seen(pairs[..|pairs| - 1]), pairs[|pairs| - 1]);
  }

  lemma {:induction false} SeenGrows(pairs: seq<Pair>, count: nat)
    requires count <= |pairs|
    ensures Seen(pairs[..count]) <= Seen(pairs)
  {
    hide *;
    var n := |pairs|;
    if count < n {
      SeenGrows(pairs[..n - 1], count);
      assert pairs[..n - 1][..count] == pairs[..count];
      SeenStep(pairs);
    } else {
      assert pairs[..n] == pairs;
    }
  }

  lemma FitsEarlier(entry0: nat, seen: seq<nat>, later: seq<nat>)
    requires seen <= later && Fits(entry0, later)
    ensures Fits(entry0, seen)
  {
  }

  // ----- When encoding succeeds -----

  ghost function OpaqueColors(pairs: seq<Pair>): set<nat> {
    if pairs == [] then {}
    else
      var last := pairs[|pairs| - 1];
      OpaqueColors(pairs[..|pairs| - 1])
      + (if Opaque(last.first) then {last.first} else {}) + (if Opaque(last.second) then {last.second} else {})
  }

  predicate HasColor(pair: Pair, color: nat) {
    Opaque(color) && (pair.first == color || pair.second == color)
  }

  lemma {:induction false} OpaqueColorsOf(pairs: seq<Pair>, color: nat)
    ensures color in OpaqueColors(pairs) <==> exists i :: 0 <= i < |pairs| && HasColor(pairs[i], color)
  {
    if pairs != [] {
      var n := |pairs| - 1;
      OpaqueColorsOf(pairs[..n], color);
      assert forall i :: 0 <= i < n ==> pairs[..n][i] == pairs[i];
      if i :| 0 <= i < |pairs| && HasColor(pairs[i], color) {
        assert i < n ==> HasColor(pairs[..n][i], color);
      }
      if HasColor(pairs[n], color) || color in OpaqueColors(pairs[..n]) {
        assert color in OpaqueColors(pairs);
      }
    }
  }

  ghost function Elements(s: seq<nat>): set<nat> {
    set p | p in s
  }

  lemma {:induction false} DistinctCount(seen: seq<nat>)
    requires Distinct(seen)
    ensures |Elements(seen)| == |seen|
  {
    if seen != [] {
      var n := |seen| - 1;
      DistinctCount(seen[..n]);
      assert Elements(seen) == Elements(seen[..n]) + {seen[n]};
    }
  }

  lemma ElementsOfSee(seen: seq<nat>, pixel: nat)
    ensures Elements(See(seen, pixel)) == Elements(seen) + if Opaque(pixel) then {pixel} else {}
  {
  }

  lemma {:induction false} SeenIsOpaqueColors(pairs: seq<Pair>)
    ensures Elements(Seen(pairs)) == OpaqueColors(pairs)
  {
    if pairs != [] {
      var n := |pairs| - 1;
      SeenIsOpaqueColors(pairs[..n]);
      ElementsOfSee(Seen(pairs[..n]), pairs[n].second);
      ElementsOfSee(See(Seen(pairs[..n]), pairs[n].second), pairs[n].first);
    }
  }

  /** The colours seen are the distinct opaque colours of the image. */
  lemma SeenCountsColors(pairs: seq<Pair>)
    ensures |Seen(pairs)| == |OpaqueColors(pairs)|
  {
    SeenCovers(pairs);
    DistinctCount(Seen(pairs));
    SeenIsOpaqueColors(pairs);
  }

  // ----- The order in which colours are seen -----

  /** The pixels as they are looked up: the second of each pair first. */
  function LookedUp(pairs: seq<Pair>): (pixels: seq<nat>)
    ensures |pixels| == 2 * |pairs|
  {
    seq(2 * |pairs|, r requires 0 <= r < 2 * |pairs| => if r % 2 == 0 then pairs[r / 2].second else pairs[r / 2].first)
  }

  /** In a list of pixels, `a` occurs before `b` does. */
  ghost predicate ComesFirst(pixels: seq<nat>, a: nat, b: nat) {
    exists r :: 0 <= r < |pixels| && pixels[r] == a && b !in pixels[..r + 1]
  }

  /** The opaque colours of a list of pixels, in the order in which they first occur. */
  ghost predicate InOrder(pixels: seq<nat>, colors: seq<nat>) {
    && (forall p :: p in colors <==> Opaque(p) && p in pixels)
    && forall i, j :: 0 <= i < j < |colors| ==> ComesFirst(pixels, colors[i], colors[j])
  }

  lemma ComesFirstInMore(pixels: seq<nat>, pixel: nat, a: nat, b: nat)
    requires ComesFirst(pixels, a, b)
    ensures ComesFirst(pixels + [pixel], a, b)
  {
    var r :| 0 <= r < |pixels| && pixels[r] == a && b !in pixels[..r + 1];
    assert (pixels + [pixel])[..r + 1] == pixels[..r + 1] && (pixels + [pixel])[r] == a;
  }

  lemma NewComesLast(pixels: seq<nat>, pixel: nat, a: nat)
    requires a in pixels && pixel !in pixels
    ensures ComesFirst(pixels + [pixel], a, pixel)
  {
    var r :| 0 <= r < |pixels| && pixels[r] == a;
    assert (pixels + [pixel])[..r + 1] == pixels[..r + 1] && (pixels + [pixel])[r] == a;
  }

  lemma SeeKeepsOrder(pixels: seq<nat>, colors: seq<nat>, pixel: nat)
    requires InOrder(pixels, colors)
    ensures InOrder(pixels + [pixel], See(colors, pixel))
  {
    var colors' := See(colors, pixel);
    hide ComesFirst;
    forall i, j | 0 <= i < j < |colors'| ensures ComesFirst(pixels + [pixel], colors'[i], colors'[j]) {
      assert colors[i] in colors;
      if j < |colors| {
        ComesFirstInMore(pixels, pixel, colors[i], colors[j]);
      } else {
        NewComesLast(pixels, pixel, colors[i]);
      }
    }
  }

  /** The colours fill the table in the order in which the lookups first meet them. */
  lemma {:induction false} SeenInOrder(pairs: seq<Pair>)
    ensures InOrder(LookedUp(pairs), Seen(pairs))
  {
    hide InOrder;
    hide SeePair;
    hide LookedUp;
    if pairs == [] {
      NothingInOrder(pairs);
    } else {
      var before, last := pairs[..|pairs| - 1], pairs[|pairs| - 1];
      SeenInOrder(before);
      PairInOrder(before, Seen(before), last);
      assert pairs == before + [last];
    }
  }

  lemma NothingInOrder(pairs: seq<Pair>)
    requires pairs == []
    ensures InOrder(LookedUp(pairs), [])
  {
  }

  lemma PairInOrder(pairs: seq<Pair>, colors: seq<nat>, last: Pair)
    requires InOrder(LookedUp(pairs), colors)
    ensures InOrder(LookedUp(pairs + [last]), SeePair(colors, last))
  {
    hide InOrder;
    hide See;
    hide LookedUp;
    LookedUpStep(pairs, last);
    SeeKeepsOrder(LookedUp(pairs), colors, last.second);
    SeeKeepsOrder(LookedUp(pairs) + [last.second], See(colors, last.second), last.first);
  }

  lemma LookedUpStep(pairs: seq<Pair>, last: Pair)
    ensures LookedUp(pairs + [last]) == LookedUp(pairs) + [last.second] + [last.first]
  {
    var now, before := LookedUp(pairs + [last]), LookedUp(pairs);
    assert |now| == |before| + 2;
    forall r | 0 <= r < |now| ensures now[r] == (before + [last.second] + [last.first])[r] {
      assert r / 2 < |pairs| ==> (pairs + [last])[r / 2] == pairs[r / 2];
    }
  }

  /** Encoding is meant to succeed for the images of up to fifteen colours. */
  ghost predicate EncodesAsPromised(entry0: nat, pairs: seq<Pair>) {
    Fits(entry0, Seen(pairs)) <==> |OpaqueColors(pairs)| <= COLORS
  }

  function RampColor(first: nat, i: nat): nat {
    if i < COLORS then first + 2 * i else 0
  }

  /** Fifteen colours, each used for one pixel, then transparency. */
  function Ramp(first: nat, n: nat): seq<Pair> {
    seq(n, k requires 0 <= k => Pair(RampColor(first, 2 * k), RampColor(first, 2 * k + 1)))
  }

  lemma RampInit(first: nat, n: nat)
    requires n > 0
    ensures |Ramp(first, n)| == n && Ramp(first, n)[..n - 1] == Ramp(first, n - 1)
    ensures Ramp(first, n)[n - 1] == Pair(RampColor(first, 2 * n - 2), RampColor(first, 2 * n - 1))
  {
  }

  lemma RampStep(first: nat, n: nat)
    requires n > 0
    ensures Seen(Ramp(first, n))
         == SeePair(Seen(Ramp(first, n - 1)), Pair(RampColor(first, 2 * n - 2), RampColor(first, 2 * n - 1)))
  {
    hide Ramp;
    RampInit(first, n);
  }

  predicate AllBelow(seen: seq<nat>, bound: nat) {
    forall j :: 0 <= j < |seen| ==> seen[j] < bound
  }

  lemma TwoNewColors(seen: seq<nat>, bound: nat)
    requires AllBelow(seen, bound) && Opaque(bound)
    ensures |SeePair(seen, Pair(bound, bound + 2))| == |seen| + 2
    ensures AllBelow(SeePair(seen, Pair(bound, bound + 2)), bound + 4)
  {
  }

  lemma RampPair(first: nat, n: nat)
    requires Opaque(first) && 0 < n <= 7
    ensures Pair(RampColor(first, 2 * n - 2), RampColor(first, 2 * n - 1)) == Pair(first + 4 * (n - 1),
            first + 4 * (n - 1) + 2)
    ensures Opaque(first + 4 * (n - 1))
  {
  }

  lemma NothingSeen(first: nat)
    ensures Seen(Ramp(first, 0)) == [] && AllBelow([], first)
  {
    assert Ramp(first, 0) == [];
  }

  lemma {:induction false} RampHead(first: nat, n: nat)
    requires Opaque(first) && n <= 7
    ensures |Seen(Ramp(first, n))| == 2 * n && AllBelow(Seen(Ramp(first, n)), first + 4 * n)
  {
    hide *;
    if n == 0 {
      NothingSeen(first);
    } else {
      RampHead(first, n - 1);
      RampStep(first, n);
      RampPair(first, n);
      TwoNewColors(Seen(Ramp(first, n - 1)), first + 4 * (n - 1));
      assert first + 4 * (n - 1) + 4 == first + 4 * n;
    }
  }

  /** The fifteenth colour comes alone and is seen last. */
  lemma {:induction false} RampFillsTable(first: nat, n: nat)
    requires Opaque(first) && 8 <= n
    ensures var seen := Seen(Ramp(first, n));
            |seen| == COLORS && seen[COLORS - 1] == first + 2 * (COLORS - 1)
  {
    RampStep(first, n);
    if n == 8 {
      RampHead(first, 7);
    } else {
      RampFillsTable(first, n - 1);
    }
  }

  /**
   Encoding succeeds exactly for the images of at most fifteen opaque colours, as promised,
   exactly when entry 0 of the table is empty beforehand. The encoder does not clear it.
   */
  lemma PromiseHoldsIff(entry0: nat, n: nat)
    requires 8 <= n
    ensures entry0 == EMPTY_COLOR <==> forall pairs: seq<Pair> :: |pairs| == n ==> EncodesAsPromised(entry0, pairs)
  {
    forall pairs: seq<Pair> | |pairs| == n && entry0 == EMPTY_COLOR ensures EncodesAsPromised(entry0, pairs) {
      SeenCountsColors(pairs);
    }
    if entry0 != EMPTY_COLOR {
      var first := if entry0 == 29 then 3 else 1;
      RampFillsTable(first, n);
      SeenCountsColors(Ramp(first, n));
      assert !EncodesAsPromised(entry0, Ramp(first, n));
    }
  }

  // ----- The encoder itself -----

  datatype Status = Ok | InvalidImageFormat | TooManyColors

  function TupleFor(seen: seq<nat>, pair: Pair): (tuple: Byte)
    requires |seen| <= COLORS && Knows(seen, pair)
  {
    IndexFor(seen, pair.first) * 0x10 + IndexFor(seen, pair.second)
  }

  /** The tuples of an image whose colours have all been seen. */
  function Tuples(seen: seq<nat>, pairs: seq<Pair>): (tuples: seq<Byte>)
    requires |seen| <= COLORS && Covers(seen, pairs)
    ensures |tuples| == |pairs|
  {
    seq(|pairs|, k requires 0 <= k < |pairs| => TupleFor(seen, pairs[k]))
  }

  lemma TuplesAreStable(seen: seq<nat>, later: seq<nat>, pairs: seq<Pair>)
    requires seen <= later && |later| <= COLORS && Covers(seen, pairs)
    ensures Covers(later, pairs) && Tuples(later, pairs) == Tuples(seen, pairs)
  {
    forall k | 0 <= k < |pairs| ensures Knows(later, pairs[k])
        && TupleFor(later, pairs[k]) == TupleFor(seen, pairs[k]) {
      assert Knows(seen, pairs[k]);
      IndexIsStable(seen, later, pairs[k].first);
      IndexIsStable(seen, later, pairs[k].second);
    }
  }

  /** The tuples written so far stay what they should be when the next pair brings in colours. */
  lemma TuplesGrow(seen: seq<nat>, done: seq<Pair>, pair: Pair)
    requires Distinct(seen) && Covers(seen, done) && |SeePair(seen, pair)| <= COLORS
    ensures |seen| <= COLORS && Knows(SeePair(seen, pair), pair) && Covers(SeePair(seen, pair), done + [pair])
    ensures Tuples(SeePair(seen, pair), done + [pair]) == Tuples(seen, done) + [TupleFor(SeePair(seen, pair), pair)]
  {
    SeePairGrows(seen, pair);
    TuplesAreStable(seen, SeePair(seen, pair), done);
  }

  /** The initialiser does not reach entry 0, which keeps whatever it held. */
  method ColorTableInitialize(colorTable: array<nat>)
    requires colorTable.Length == COLORS
    modifies colorTable
    ensures colorTable[..] == TableOf(old(colorTable[0]), [])
  {
    var i := COLORS;
    while i != 1
      invariant 1 <= i <= COLORS && colorTable[0] == old(colorTable[0])
      invariant forall k :: i <= k < COLORS ==> colorTable[k] == EMPTY_COLOR
    {
      colorTable[i - 1] := EMPTY_COLOR;
      i := i - 1;
    }
  }

  method ColorTableLoadPixel(colorTable: array<nat>, pixel: nat) returns (index: nat)
    requires colorTable.Length == COLORS
    modifies colorTable
    ensures Loaded(index, colorTable[..]) == Load(old(colorTable[..]), pixel)
  {
    if pixel % 2 == 0 {
      return 0;
    }
    var i: nat := COLORS;
    while i != 0
      invariant i <= COLORS && colorTable[..] == old(colorTable[..])
      invariant Scan(colorTable[..], pixel, i) == Scan(colorTable[..], pixel, COLORS)
    {
      var color := colorTable[i - 1];
      if color == EMPTY_COLOR {
        colorTable[i - 1] := pixel;
        return i;
      }
      if color == pixel {
        return i;
      }
      i := i - 1;
    }
    return INVALID_INDEX;
  }

  /** The second pixel of a pair is looked up before the first. */
  method EncodePixelTuple(pair: Pair, colorTable: array<nat>, ghost entry0: nat, ghost seen: seq<nat>)
    returns (status: Status, tuple: Byte)
    requires Fits(entry0, seen) && Distinct(seen)
    requires colorTable.Length == COLORS && colorTable[..] == TableOf(entry0, seen)
    modifies colorTable
    ensures Knows(SeePair(seen, pair), pair)
    ensures if Fits(entry0, SeePair(seen, pair))
            then status == Ok && colorTable[..] == TableOf(entry0, SeePair(seen, pair))
                && tuple == TupleFor(SeePair(seen, pair), pair)
            else status == TooManyColors
  {
    SeeKeepsDistinct(seen, pair.second);
    SeeKeepsDistinct(See(seen, pair.second), pair.first);
    LoadSees(entry0, seen, pair.second);
    tuple := 0;
    var index1 := ColorTableLoadPixel(colorTable, pair.second);
    if index1 == INVALID_INDEX {
      return TooManyColors, tuple;
    }
    LoadSees(entry0, See(seen, pair.second), pair.first);
    var index0 := ColorTableLoadPixel(colorTable, pair.first);
    if index0 == INVALID_INDEX {
      return TooManyColors, tuple;
    }
    IndexIsStable(See(seen, pair.second), SeePair(seen, pair), pair.second);
    tuple := index0 * 0x10 + index1;
    status := Ok;
  }

  /** A colour that does not fit early does not fit the whole image either. */
  lemma TooManyAlready(entry0: nat, pairs: seq<Pair>, count: nat)
    requires count <= |pairs| && !Fits(entry0, Seen(pairs[..count]))
    ensures !Fits(entry0, Seen(pairs))
  {
    SeenGrows(pairs, count);
    if Fits(entry0, Seen(pairs)) {
      FitsEarlier(entry0, Seen(pairs[..count]), Seen(pairs));
    }
  }

  /** What the encoder has produced after the first pairs of an image. */
  ghost predicate Encoded(entry0: nat, pairs: seq<Pair>, table: seq<nat>, tuples: seq<Byte>) {
    && Fits(entry0, Seen(pairs)) && Covers(Seen(pairs), pairs)
    && table == TableOf(entry0, Seen(pairs)) && tuples == Tuples(Seen(pairs), pairs)
  }

  // ----- The same, byte by byte -----

  /** The colour of an opaque pixel of four bytes: the upper five bits of each channel, and a one. */
  predicate ColorOf(bytes: seq<Byte>, color: nat)
    requires |bytes| == 4
  {
    var r: int, g: int, b: int, a: int := bytes[0], bytes[1], bytes[2], bytes[3];
    a >= 0x80 && color == 1 + 2 * (b / 8) + 0x40 * (g / 8) + 0x800 * (r / 8)
  }

  /** An index leads to the colour of a pixel, or is zero if the pixel is less than half opaque. */
  predicate StandsFor(index: int, table: seq<nat>, bytes: seq<Byte>)
    requires |table| == COLORS && |bytes| == 4
  {
    if bytes[3] < 0x80 then index == 0 else 1 <= index <= COLORS && ColorOf(bytes, table[index - 1])
  }

  /** The index of a pixel: the upper half of a tuple comes first. */
  function IndexAt(tuples: seq<Byte>, pixel: nat): int
    requires pixel < 2 * |tuples|
  {
    var tuple: int := tuples[pixel / 2];
    if pixel % 2 == 0 then tuple / 0x10 else tuple % 0x10
  }

  /** The tuples and the table stand for each pixel of the image, in order. */
  predicate EncodesImage(input: seq<Byte>, table: seq<nat>, tuples: seq<Byte>) {
    |table| == COLORS && |input| == 8 * |tuples|
    && forall k :: 0 <= k < 2 * |tuples| ==> StandsFor(IndexAt(tuples, k), table, input[4 * k..4 * k + 4])
  }

  lemma PixelColor(bytes: seq<Byte>, color: nat)
    requires |bytes| == 4
    ensures ColorOf(bytes, color) <==> Opaque(color) && color == Rgba5551(bytes[0], bytes[1], bytes[2], bytes[3])
    ensures Opaque(Rgba5551(bytes[0], bytes[1], bytes[2], bytes[3])) <==> bytes[3] >= 0x80
  {
  }

  lemma IndexStandsFor(entry0: nat, seen: seq<nat>, bytes: seq<Byte>, pixel: nat)
    requires |bytes| == 4 && pixel == Rgba5551(bytes[0], bytes[1], bytes[2], bytes[3])
    requires |seen| <= COLORS && (Opaque(pixel) ==> pixel in seen)
    ensures StandsFor(IndexFor(seen, pixel), TableOf(entry0, seen), bytes) && IndexFor(seen, pixel) < 0x10
  {
    hide Rgba5551;
    hide ColorOf;
    hide TableOf;
    PixelColor(bytes, pixel);
    if Opaque(pixel) {
      IndexLeadsToColor(entry0, seen, pixel);
    }
  }

  lemma IndicesOf(tuples: seq<Byte>, i: nat, high: nat, low: nat)
    requires i < |tuples| && low < 0x10 && tuples[i] as int == high * 0x10 + low
    ensures IndexAt(tuples, 2 * i) == high && IndexAt(tuples, 2 * i + 1) == low
  {
  }

  /** Both pixels of a pair. */
  predicate PairStands(input: seq<Byte>, table: seq<nat>, tuples: seq<Byte>, i: nat)
    requires |table| == COLORS && i < |tuples| && |input| == 8 * |tuples|
  {
    && StandsFor(IndexAt(tuples, 2 * i), table, input[8 * i..8 * i + 4])
    && StandsFor(IndexAt(tuples, 2 * i + 1), table, input[8 * i + 4..8 * i + 8])
  }

  lemma EncodedLengths(entry0: nat, pairs: seq<Pair>, table: seq<nat>, tuples: seq<Byte>)
    requires Encoded(entry0, pairs, table, tuples)
    ensures |table| == COLORS && |tuples| == |pairs| && |Seen(pairs)| <= COLORS
  {
    hide Seen;
  }

  lemma PairStandsFor(entry0: nat, input: seq<Byte>, table: seq<nat>, tuples: seq<Byte>, i: nat)
    requires |input| % 8 == 0 && Encoded(entry0, Pairs(input), table, tuples) && i < |tuples|
    ensures |table| == COLORS && |input| == 8 * |tuples| && PairStands(input, table, tuples, i)
  {
    hide Rgba5551;
    hide StandsFor;
    hide Seen;
    hide TableOf;
    hide IndexFor;
    hide IndexAt;
    var seen, pair := Seen(Pairs(input)), Pairs(input)[i];
    assert Knows(seen, pair);
    IndexStandsFor(entry0, seen, input[8 * i..8 * i + 4], pair.first);
    IndexStandsFor(entry0, seen, input[8 * i + 4..8 * i + 8], pair.second);
    IndicesOf(tuples, i, IndexFor(seen, pair.first), IndexFor(seen, pair.second));
  }

  lemma PixelStandsFor(input: seq<Byte>, table: seq<nat>, tuples: seq<Byte>, k: nat)
    requires |table| == COLORS && |input| == 8 * |tuples| && k < 2 * |tuples|
    requires PairStands(input, table, tuples, k / 2)
    ensures StandsFor(IndexAt(tuples, k), table, input[4 * k..4 * k + 4])
  {
    hide StandsFor;
    hide IndexAt;
    assert k == 2 * (k / 2) || k == 2 * (k / 2) + 1;
  }

  /** What the encoder has produced stands for the bytes of the image. */
  lemma EncodedStandsForBytes(entry0: nat, input: seq<Byte>, table: seq<nat>, tuples: seq<Byte>)
    requires |input| % 8 == 0 && Encoded(entry0, Pairs(input), table, tuples)
    ensures EncodesImage(input, table, tuples)
  {
    hide Encoded;
    hide StandsFor;
    hide IndexAt;
    hide PairStands;
    hide Pairs;
    EncodedLengths(entry0, Pairs(input), table, tuples);
    forall k | 0 <= k < 2 * |tuples| ensures StandsFor(IndexAt(tuples, k), table, input[4 * k..4 * k + 4]) {
      PairStandsFor(entry0, input, table, tuples, k / 2);
      PixelStandsFor(input, table, tuples, k);
    }
  }

  lemma NothingEncoded(entry0: nat, pairs: seq<Pair>, table: seq<nat>, tuples: seq<Byte>)
    requires pairs == [] && tuples == [] && table == TableOf(entry0, [])
    ensures Encoded(entry0, pairs, table, tuples)
  {
  }

  /** One round of the loop. */
  method EncodeNext(input: seq<Byte>, colorTable: array<nat>, pixelTuples: array<Byte>, done: nat, ghost entry0: nat)
    returns (status: Status)
    requires colorTable.Length == COLORS && done < pixelTuples.Length && |input| == 8 * pixelTuples.Length
    requires Encoded(entry0, Pairs(input)[..done], colorTable[..], pixelTuples[..done])
    modifies colorTable, pixelTuples
    ensures if Fits(entry0, Seen(Pairs(input)[..done + 1]))
            then status == Ok && Encoded(entry0, Pairs(input)[..done + 1], colorTable[..], pixelTuples[..done + 1])
            else status == TooManyColors
  {
    NextPair(input, done);
    hide *;
    ghost var before, pair := Pairs(input)[..done], Pairs(input)[done];
    EncodedStep(entry0, before, pair, colorTable[..], pixelTuples[..done]);
    var tuple;
    status, tuple := EncodePixelTuple(PairAt(input, 8 * done), colorTable, entry0, Seen(before));
    if status == Ok {
      SetTuple(pixelTuples, done, tuple);
    }
  }

  method SetTuple(pixelTuples: array<Byte>, at: nat, tuple: Byte)
    requires at < pixelTuples.Length
    modifies pixelTuples
    ensures pixelTuples[..at + 1] == old(pixelTuples[..at]) + [tuple]
  {
    pixelTuples[at] := tuple;
  }

  lemma NextPair(input: seq<Byte>, done: nat)
    requires |input| % 8 == 0 && done < |Pairs(input)|
    ensures 8 * done + 8 <= |input| && Pairs(input)[done] == PairAt(input, 8 * done)
    ensures Pairs(input)[..done + 1] == Pairs(input)[..done] + [Pairs(input)[done]]
  {
    hide PairAt;
  }

  lemma EncodedStep(entry0: nat, pairs: seq<Pair>, pair: Pair, table: seq<nat>, tuples: seq<Byte>)
    requires Encoded(entry0, pairs, table, tuples)
    ensures Fits(entry0, Seen(pairs)) && Distinct(Seen(pairs)) && table == TableOf(entry0, Seen(pairs))
    ensures Knows(SeePair(Seen(pairs), pair), pair)
    ensures Seen(pairs + [pair]) == SeePair(Seen(pairs), pair)
    ensures Fits(entry0, SeePair(Seen(pairs), pair)) ==>
              Encoded(entry0, pairs + [pair], TableOf(entry0, SeePair(Seen(pairs), pair)),
                      tuples + [TupleFor(SeePair(Seen(pairs), pair), pair)])
  {
    assert (pairs + [pair])[..|pairs|] == pairs;
    SeenCovers(pairs);
    SeePairGrows(Seen(pairs), pair);
    if Fits(entry0, SeePair(Seen(pairs), pair)) {
      TuplesGrow(Seen(pairs), pairs, pair);
    }
  }

  method Encode(input: seq<Byte>, colorTable: array<nat>, pixelTuples: array<Byte>) returns (status: Status)
    requires colorTable.Length == COLORS && 0 < pixelTuples.Length
    modifies colorTable, pixelTuples
    ensures status == InvalidImageFormat <==> |input| != 8 * pixelTuples.Length
    ensures status == InvalidImageFormat ==>
              colorTable[..] == old(colorTable[..]) && pixelTuples[..] == old(pixelTuples[..])
    ensures status == Ok ==> Encoded(old(colorTable[0]), Pairs(input), colorTable[..], pixelTuples[..])
    ensures status == Ok ==> EncodesImage(input, colorTable[..], pixelTuples[..])
    ensures status == TooManyColors ==> !Fits(old(colorTable[0]), Seen(Pairs(input)))
  {
    hide EncodesImage;
    hide Encoded;
    hide TableOf;
    hide Seen;
    hide Fits;
    hide Pairs;
    if |input| != 8 * pixelTuples.Length {
      return InvalidImageFormat;
    }
    ghost var entry0 := colorTable[0];
    ColorTableInitialize(colorTable);
    var done := 0;
    NothingEncoded(entry0, Pairs(input)[..done], colorTable[..], pixelTuples[..done]);
    while done != pixelTuples.Length
      invariant done <= pixelTuples.Length
      invariant Encoded(entry0, Pairs(input)[..done], colorTable[..], pixelTuples[..done])
    {
      status := EncodeNext(input, colorTable, pixelTuples, done, entry0);
      if status != Ok {
        TooManyAlready(entry0, Pairs(input), done + 1);
        return;
      }
      done := done + 1;
    }
    assert Pairs(input)[..done] == Pairs(input) && pixelTuples[..done] == pixelTuples[..];
    EncodedStandsForBytes(entry0, input, colorTable[..], pixelTuples[..]);
    status := Ok;
  }
}
