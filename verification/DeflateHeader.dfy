/** The code lengths at the start of a block with dynamic codes (RFC 1951, section 3.2.7). */
module DeflateHeaders {
  import opened BitOps
  import opened BitStreams
  import opened CanonicalCodes
  import opened HuffmanDecoders
  import opened DeflateBlocks
  import opened DeflateEncodings

  function Dezigzag(): (t: seq<nat>)
    ensures |t| == 19 && forall i | 0 <= i < 19 :: t[i] < 19
  {
    [16, 17, 18, 0, 8, 7, 9, 6, 10, 5, 11, 4, 12, 3, 13, 2, 14, 1, 15]
  }

  /**
   * The order of section 3.2.7, in which lengths are more and more likely to be zero: the repeat codes, 0, and then
   * from 8 on upwards and from 7 on downwards in turn.
   */
  lemma DezigzagIsOrder(k: nat)
    ensures Dezigzag()[0] == 16 && Dezigzag()[1] == 17 && Dezigzag()[2] == 18 && Dezigzag()[3] == 0
    ensures k < 8 ==> Dezigzag()[4 + 2 * k] == 8 + k
    ensures k < 7 ==> Dezigzag()[5 + 2 * k] == 7 - k
  {
  }

  /** One length, the previous length again, or zeros. */
  datatype Item = One(length: nat) | Again(times: nat) | Zeros(times: nat) | NoItem

  datatype ItemReading = ItemReading(item: Item, next: nat)

  ghost function ReadItem(lens: seq<nat>, m: Memory, p: nat): (r: ItemReading)
    requires |lens| == 19
    ensures r.item.Again? || r.item.Zeros? ==> r.item.times >= 3
    ensures r.item.One? ==> r.item.length <= 15
  {
    var c := Decoded(lens, m, p);
    var q := p + Taken(lens, c);
    if c < 0 then ItemReading(NoItem, q)
    else if c < 16 then ItemReading(One(c), q)
    else if c == 16 then ItemReading(Again(Window(m, q, 2) + 3), q + 2)
    else if c == 17 then ItemReading(Zeros(Window(m, q, 3) + 3), q + 3)
    else ItemReading(Zeros(Window(m, q, 7) + 11), q + 7)
  }

  function Copies(x: nat, n: nat): (s: seq<nat>)
    ensures |s| == n && forall i | 0 <= i < n :: s[i] == x
  {
    seq(n, i => x)
  }

  /** An item can be entered: something to repeat, and room for it. */
  predicate Enterable(item: Item, acc: seq<nat>, total: nat) {
    match item
    case NoItem => false
    case One(c) => true
    case Again(n) => acc != [] && |acc| + n <= total
    case Zeros(n) => |acc| + n <= total
  }

  function Enter(item: Item, acc: seq<nat>): seq<nat>
    requires !item.NoItem? && (item.Again? ==> acc != [])
  {
    match item
    case One(c) => acc + [c]
    case Again(n) => acc + Copies(acc[|acc| - 1], n)
    case Zeros(n) => acc + Copies(0, n)
  }

  datatype Lengths = Lengths(lens: seq<nat>, next: nat) | NoLengths

  /** The items from `p` on, behind `acc`, up to `total` lengths. */
  ghost function ReadLengths(lens: seq<nat>, m: Memory, p: nat, acc: seq<nat>, total: nat): (r: Lengths)
    requires |lens| == 19
    ensures r.Lengths? && |acc| <= total ==> |r.lens| == total
    ensures r.Lengths? && (forall i | 0 <= i < |acc| :: acc[i] <= 15) ==>
      forall i | 0 <= i < |r.lens| :: r.lens[i] <= 15
    decreases total - |acc|
  {
    if |acc| >= total then Lengths(acc, p)
    else
      var r := ReadItem(lens, m, p);
      if !Enterable(r.item, acc, total) then NoLengths
      else ReadLengths(lens, m, r.next, Enter(r.item, acc), total)
  }

  /** The lengths of the code for code lengths, after `n` of them. */
  ghost function CodeLengthSizes(m: Memory, p: nat, n: nat): (s: seq<nat>)
    requires n <= 19
    ensures |s| == 19
  {
    if n == 0 then Copies(0, 19)
    else CodeLengthSizes(m, p, n - 1)[Dezigzag()[n - 1] := Window(m, p + 3 * (n - 1), 3)]
  }

  lemma {:induction false} SizesAreShort(m: Memory, p: nat, n: nat)
    requires n <= 19
    ensures forall i | 0 <= i < 19 :: CodeLengthSizes(m, p, n)[i] <= 7
    ensures ValidLengths(CodeLengthSizes(m, p, n))
  {
    if n > 0 {
      SizesAreShort(m, p, n - 1);
      WindowBound(m, p + 3 * (n - 1), 3);
      assert Pow2(3) == 8;
    }
  }

  datatype Header = Header(codes: Codes, next: nat) | NoHeader

  /** Lengths that form codes, or not. */
  ghost function SplitLengths(r: Lengths, hlit: nat): (h: Header)
    requires r.Lengths? ==> hlit <= |r.lens| <= hlit + 32 && hlit <= 288
    requires r.Lengths? ==> forall i | 0 <= i < |r.lens| :: r.lens[i] <= 15
    ensures h.Header? ==> ValidCodes(h.codes)
  {
    if r.NoLengths? || Kraft(r.lens[..hlit]) > Pow2(15) || Kraft(r.lens[hlit..]) > Pow2(15) then NoHeader
    else Header(Codes(r.lens[..hlit], r.lens[hlit..]), r.next)
  }

  lemma WindowsAreSmall(m: Memory, p: nat)
    ensures Window(m, p, 5) < 32 && Window(m, p, 4) < 16
  {
    WindowBound(m, p, 5);
    WindowBound(m, p, 4);
    assert Pow2(4) == 16;
  }

  /** `total` code lengths, in the code for code lengths whose first `hclen` lengths are at `q`. */
  ghost function LengthsAt(m: Memory, q: nat, hclen: nat, total: nat): (r: Lengths)
    requires hclen <= 19
    ensures r.Lengths? ==> |r.lens| == total && forall i | 0 <= i < |r.lens| :: r.lens[i] <= 15
  {
    SizesAreShort(m, q, hclen);
    if Kraft(CodeLengthSizes(m, q, hclen)) > Pow2(15) then NoLengths
    else ReadLengths(CodeLengthSizes(m, q, hclen), m, q + 3 * hclen, [], total)
  }

  ghost function ReadHeader(m: Memory, p: nat): (h: Header)
    ensures h.Header? ==> ValidCodes(h.codes)
  {
    WindowsAreSmall(m, p);
    WindowsAreSmall(m, p + 5);
    WindowsAreSmall(m, p + 10);
    var hlit, hdist, hclen := Window(m, p, 5) + 257, Window(m, p + 5, 5) + 1, Window(m, p + 10, 4) + 4;
    SplitLengths(LengthsAt(m, p + 14, hclen, hlit + hdist), hlit)
  }

  lemma HeaderIs(m: Memory, p: nat, hlit: nat, hdist: nat, hclen: nat)
    requires hlit == Window(m, p, 5) + 257 && hdist == Window(m, p + 5, 5) + 1 && hclen == Window(m, p + 10, 4) + 4
    requires hclen <= 19 && hlit <= 288 && hdist <= 32
    ensures ReadHeader(m, p) == SplitLengths(LengthsAt(m, p + 14, hclen, hlit + hdist), hlit)
  {
    hide Window, LengthsAt, SplitLengths;
  }

  lemma LengthsAtIs(m: Memory, q: nat, hclen: nat, total: nat)
    requires hclen <= 19
    ensures ValidLengths(CodeLengthSizes(m, q, hclen))
    ensures forall i | 0 <= i < 19 :: CodeLengthSizes(m, q, hclen)[i] <= 15
    ensures LengthsAt(m, q, hclen, total)
         == if Kraft(CodeLengthSizes(m, q, hclen)) > Pow2(15) then NoLengths
            else ReadLengths(CodeLengthSizes(m, q, hclen), m, q + 3 * hclen, [], total)
  {
    SizesAreShort(m, q, hclen);
  }

  lemma SplitIs(r: Lengths, hlit: nat)
    requires r.Lengths? ==> hlit <= |r.lens| <= hlit + 32 && hlit <= 288
    requires r.Lengths? ==> forall i | 0 <= i < |r.lens| :: r.lens[i] <= 15
    ensures r.NoLengths? ==> SplitLengths(r, hlit) == NoHeader
    ensures r.Lengths? && (Kraft(r.lens[..hlit]) > Pow2(15) || Kraft(r.lens[hlit..]) > Pow2(15)) ==>
      SplitLengths(r, hlit) == NoHeader
    ensures r.Lengths? && Kraft(r.lens[..hlit]) <= Pow2(15) && Kraft(r.lens[hlit..]) <= Pow2(15) ==>
      SplitLengths(r, hlit) == Header(Codes(r.lens[..hlit], r.lens[hlit..]), r.next)
  {
  }

  // ---- Fixed codes (section 3.2.6)

  function FixedCodes(): Codes {
    Codes(Copies(8, 144) + Copies(9, 112) + Copies(7, 24) + Copies(8, 8), Copies(5, 32))
  }

  /** The lengths of section 3.2.6, by symbol. */
  lemma FixedLengthOf(i: nat)
    ensures |FixedCodes().literal| == 288 && |FixedCodes().distance| == 32
    ensures i < 288 ==>
      FixedCodes().literal[i] == if i <= 143 then 8 else if i <= 255 then 9 else if i <= 279 then 7 else 8
    ensures i < 32 ==> FixedCodes().distance[i] == 5
  {
  }

  lemma {:induction false} CountConcat(a: seq<nat>, b: seq<nat>, s: nat)
    ensures Count(a + b, s) == Count(a, s) + Count(b, s)
  {
    if b == [] {
      assert a + b == a;
    } else {
      CountConcat(a, b[..|b| - 1], s);
      assert (a + b)[..|a + b| - 1] == a + b[..|b| - 1];
    }
  }

  lemma {:induction false} CountCopies(x: nat, n: nat, s: nat)
    ensures Count(Copies(x, n), s) == if x == s then n else 0
  {
    if n > 0 {
      CountCopies(x, n - 1, s);
      assert Copies(x, n)[..n - 1] == Copies(x, n - 1);
    }
  }

  lemma FixedCounts(s: nat)
    ensures Count(FixedCodes().literal, s) == if s == 7 then 24 else if s == 8 then 152 else if s == 9 then 112 else 0
    ensures Count(FixedCodes().distance, s) == if s == 5 then 32 else 0
  {
    var a, b, c, d := Copies(8, 144), Copies(9, 112), Copies(7, 24), Copies(8, 8);
    CountCopies(8, 144, s);
    CountCopies(9, 112, s);
    CountCopies(7, 24, s);
    CountCopies(8, 8, s);
    CountCopies(5, 32, s);
    CountConcat(a, b, s);
    CountConcat(a + b, c, s);
    CountConcat(a + b + c, d, s);
  }

  /** The ends of the fixed codes by length. */
  lemma {:induction false} FixedEnds(s: nat)
    ensures s <= 6 ==> CodeEnd(FixedCodes().literal, s) == 0
    ensures s == 7 ==> CodeEnd(FixedCodes().literal, s) == 24
    ensures s == 8 ==> CodeEnd(FixedCodes().literal, s) == 200
    ensures s >= 9 ==> CodeEnd(FixedCodes().literal, s) == Pow2(s)
    ensures s <= 4 ==> CodeEnd(FixedCodes().distance, s) == 0
    ensures s >= 5 ==> CodeEnd(FixedCodes().distance, s) == Pow2(s)
  {
    if s > 0 {
      FixedEnds(s - 1);
      FixedCounts(s);
      assert Pow2(4) == 16 && Pow2(5) == 32 && Pow2(8) == 256 && Pow2(9) == 512;
      hide FixedCodes;
    }
  }

  lemma FixedLengths()
    ensures ValidLengths(FixedCodes().literal) && ValidLengths(FixedCodes().distance)
    ensures |FixedCodes().distance| == 32
  {
  }

  lemma ValidParts(c: Codes)
    requires ValidLengths(c.literal) && ValidLengths(c.distance) && |c.distance| == 32
    requires Kraft(c.literal) == Pow2(15) && Kraft(c.distance) == Pow2(15)
    ensures ValidCodes(c)
  {
    hide ValidLengths, Kraft, Pow2;
  }

  lemma LengthsBounded(lens: seq<nat>)
    requires ValidLengths(lens)
    ensures forall i | 0 <= i < |lens| :: lens[i] <= 15
  {
  }

  /** The fixed codes are complete: they leave no room. */
  lemma FixedCodesValid()
    ensures ValidCodes(FixedCodes())
    ensures ValidLengths(FixedCodes().literal) && ValidLengths(FixedCodes().distance)
    ensures Kraft(FixedCodes().literal) == Pow2(15) && Kraft(FixedCodes().distance) == Pow2(15)
  {
    hide *;
    FixedLengths();
    FixedEnds(15);
    LengthsBounded(FixedCodes().literal);
    LengthsBounded(FixedCodes().distance);
    KraftIsEnd(FixedCodes().literal);
    KraftIsEnd(FixedCodes().distance);
    ValidParts(FixedCodes());
  }

  /** They give codes to reserved symbols, so that the decoder accepts blocks that the standard rules out. */
  lemma FixedCodesReachReserved()
    ensures ReservedReachable(FixedCodes())
  {
    assert FixedCodes().literal[286] == 8;
    assert UsesReserved(FixedCodes(), 286, 0);
  }

  // ---- Items are read back

  ghost predicate Writable(lens: seq<nat>, item: Item)
    requires |lens| == 19
  {
    match item
    case NoItem => false
    case One(c) => c <= 15 && lens[c] > 0
    case Again(n) => 3 <= n <= 6 && lens[16] > 0
    case Zeros(n) => (3 <= n <= 10 && lens[17] > 0) || (11 <= n <= 138 && lens[18] > 0)
  }

  ghost function ItemBits(lens: seq<nat>, item: Item): seq<nat>
    requires |lens| == 19 && Writable(lens, item)
  {
    match item
    case One(c) => CodeBits(lens, c)
    case Again(n) => CodeBits(lens, 16) + Little(n - 3, 2)
    case Zeros(n) =>
      if n <= 10 && lens[17] > 0 then CodeBits(lens, 17) + Little(n - 3, 3)
      else CodeBits(lens, 18) + Little(n - 11, 7)
  }

  lemma ItemReadsBack(lens: seq<nat>, m: Memory, p: nat, item: Item)
    requires |lens| == 19 && ValidLengths(lens) && Kraft(lens) <= Pow2(15) && Writable(lens, item)
    requires Holds(m, p, ItemBits(lens, item))
    ensures ReadItem(lens, m, p) == ItemReading(item, p + |ItemBits(lens, item)|)
  {
    hide *;
    WritableIsItem(lens, item);
    if item.One? {
      ItemOfOne(lens, item.length);
      HoldsCode(lens, m, p, item.length);
      ItemOf(lens, m, p, item.length);
    } else if item.Again? {
      ItemOfAgain(lens, item.times);
      CodeAndExtra(lens, m, p, 16, item.times - 3, 2);
      ItemOf(lens, m, p, 16);
    } else if item.times <= 10 && lens[17] > 0 {
      ItemOfZeros(lens, item.times);
      CodeAndExtra(lens, m, p, 17, item.times - 3, 3);
      ItemOf(lens, m, p, 17);
    } else {
      ItemOfZeros(lens, item.times);
      CodeAndExtra(lens, m, p, 18, item.times - 11, 7);
      ItemOf(lens, m, p, 18);
    }
  }

  lemma WritableIsItem(lens: seq<nat>, item: Item)
    requires |lens| == 19 && Writable(lens, item)
    ensures !item.NoItem?
  {
  }

  lemma ItemOf(lens: seq<nat>, m: Memory, p: nat, c: nat)
    requires |lens| == 19 && Decoded(lens, m, p) == c < 19
    ensures c < 16 ==> ReadItem(lens, m, p) == ItemReading(One(c), p + Taken(lens, c))
    ensures c == 16 ==>
      ReadItem(lens, m, p) == ItemReading(Again(Window(m, p + Taken(lens, c), 2) + 3), p + Taken(lens, c) + 2)
    ensures c == 17 ==>
      ReadItem(lens, m, p) == ItemReading(Zeros(Window(m, p + Taken(lens, c), 3) + 3), p + Taken(lens, c) + 3)
    ensures c == 18 ==>
      ReadItem(lens, m, p) == ItemReading(Zeros(Window(m, p + Taken(lens, c), 7) + 11), p + Taken(lens, c) + 7)
  {
    hide Decoded, Window;
  }

  lemma ItemOfOne(lens: seq<nat>, c: nat)
    requires |lens| == 19 && Writable(lens, One(c))
    ensures c <= 15 && lens[c] > 0 && ItemBits(lens, One(c)) == CodeBits(lens, c)
  {
  }

  lemma ItemOfAgain(lens: seq<nat>, n: nat)
    requires |lens| == 19 && Writable(lens, Again(n))
    ensures 3 <= n && lens[16] > 0 && n - 3 < Pow2(2)
    ensures ItemBits(lens, Again(n)) == CodeBits(lens, 16) + Little(n - 3, 2)
  {
    assert Pow2(2) == 4;
  }

  lemma ItemOfZeros(lens: seq<nat>, n: nat)
    requires |lens| == 19 && Writable(lens, Zeros(n))
    ensures n >= 3
    ensures n <= 10 && lens[17] > 0 ==>
      n - 3 < Pow2(3) && ItemBits(lens, Zeros(n)) == CodeBits(lens, 17) + Little(n - 3, 3)
    ensures !(n <= 10 && lens[17] > 0) ==>
      n >= 11 && lens[18] > 0 && n - 11 < Pow2(7) && ItemBits(lens, Zeros(n)) == CodeBits(lens, 18) + Little(n - 11, 7)
  {
    assert Pow2(3) == 8 && Pow2(4) == 16 && Pow2(7) == 128;
    hide CodeBits, Little;
  }

  lemma CodeAndExtra(lens: seq<nat>, m: Memory, p: nat, c: nat, x: nat, n: nat)
    requires |lens| == 19 && ValidLengths(lens) && Kraft(lens) <= Pow2(15) && c < 19 && lens[c] > 0 && x < Pow2(n)
    requires Holds(m, p, CodeBits(lens, c) + Little(x, n))
    ensures Decoded(lens, m, p) == c && Taken(lens, c) == lens[c] && Window(m, p + lens[c], n) == x
    ensures |CodeBits(lens, c) + Little(x, n)| == lens[c] + n
  {
    hide *;
    HoldsParts(m, p, CodeBits(lens, c), Little(x, n));
    HoldsCode(lens, m, p, c);
    HoldsLittle(m, p + lens[c], x, n);
  }

  /** Items fill the lengths up exactly. */
  ghost predicate Fill(items: seq<Item>, acc: seq<nat>, total: nat)
    decreases |items|
  {
    if items == [] then |acc| == total
    else |acc| < total && Enterable(items[0], acc, total) && Fill(items[1..], Enter(items[0], acc), total)
  }

  ghost function Filled(items: seq<Item>, acc: seq<nat>, total: nat): seq<nat>
    requires Fill(items, acc, total)
    decreases |items|
  {
    if items == [] then acc else Filled(items[1..], Enter(items[0], acc), total)
  }

  ghost function ItemsBits(lens: seq<nat>, items: seq<Item>): seq<nat>
    requires |lens| == 19 && forall i | 0 <= i < |items| :: Writable(lens, items[i])
    decreases |items|
  {
    if items == [] then [] else ItemBits(lens, items[0]) + ItemsBits(lens, items[1..])
  }

  /** Lengths written as items are read back. */
  lemma {:induction false} ItemsReadBack(
      lens: seq<nat>, m: Memory, p: nat, items: seq<Item>, acc: seq<nat>, total: nat)
    requires |lens| == 19 && ValidLengths(lens) && Kraft(lens) <= Pow2(15)
    requires forall i | 0 <= i < |items| :: Writable(lens, items[i])
    requires Fill(items, acc, total) && Holds(m, p, ItemsBits(lens, items))
    ensures ReadLengths(lens, m, p, acc, total)
         == Lengths(Filled(items, acc, total), p + |ItemsBits(lens, items)|)
    decreases |items|
  {
    hide *;
    if items == [] {
      NothingToRead(lens, m, p, acc, total);
    } else {
      FillStep(lens, items, acc, total);
      HoldsParts(m, p, ItemBits(lens, items[0]), ItemsBits(lens, items[1..]));
      ItemReadsBack(lens, m, p, items[0]);
      ReadLengthsStep(lens, m, p, acc, total, ReadItem(lens, m, p));
      ItemsReadBack(lens, m, p + |ItemBits(lens, items[0])|, items[1..], Enter(items[0], acc), total);
    }
  }

  lemma NothingToRead(lens: seq<nat>, m: Memory, p: nat, acc: seq<nat>, total: nat)
    requires |lens| == 19 && Fill([], acc, total)
    ensures ReadLengths(lens, m, p, acc, total) == Lengths(Filled([], acc, total), p + |ItemsBits(lens, [])|)
  {
    hide ReadItem, Enter, Enterable;
  }

  lemma FillStep(lens: seq<nat>, items: seq<Item>, acc: seq<nat>, total: nat)
    requires |lens| == 19 && items != [] && Fill(items, acc, total)
    requires forall i | 0 <= i < |items| :: Writable(lens, items[i])
    ensures |acc| < total && Enterable(items[0], acc, total)
    ensures !items[0].NoItem? && (items[0].Again? ==> acc != [])
    ensures Fill(items[1..], Enter(items[0], acc), total)
    ensures Filled(items, acc, total) == Filled(items[1..], Enter(items[0], acc), total)
    ensures ItemsBits(lens, items) == ItemBits(lens, items[0]) + ItemsBits(lens, items[1..])
  {
    hide Writable, ItemBits, Enter;
  }

  lemma ReadLengthsStep(lens: seq<nat>, m: Memory, p: nat, acc: seq<nat>, total: nat, r: ItemReading)
    requires |lens| == 19 && |acc| < total && r == ReadItem(lens, m, p) && Enterable(r.item, acc, total)
    requires !r.item.NoItem? && (r.item.Again? ==> acc != [])
    ensures ReadLengths(lens, m, p, acc, total) == ReadLengths(lens, m, r.next, Enter(r.item, acc), total)
  {
    hide Enter, ReadItem;
  }

  // ---- Whole headers are read back

  /** The lengths of the code for code lengths, in the order of `Dezigzag`. */
  ghost function SizeBits(lens: seq<nat>, n: nat): (e: seq<nat>)
    requires |lens| == 19 && n <= 19
    ensures |e| == 3 * n
  {
    if n == 0 then [] else SizeBits(lens, n - 1) + Little(lens[Dezigzag()[n - 1]], 3)
  }

  lemma {:induction false} SizesReadBack(lens: seq<nat>, m: Memory, p: nat, n: nat)
    requires |lens| == 19 && n <= 19 && (forall i | 0 <= i < 19 :: lens[i] < 8) && Holds(m, p, SizeBits(lens, n))
    ensures forall j | 0 <= j < 19 :: CodeLengthSizes(m, p, n)[j] == if j in Dezigzag()[..n] then lens[j] else 0
  {
    hide Dezigzag, Little, Holds, Window;
    if n > 0 {
      var d := Dezigzag()[n - 1];
      assert Pow2(3) == 8;
      HoldsParts(m, p, SizeBits(lens, n - 1), Little(lens[d], 3));
      HoldsLittle(m, p + 3 * (n - 1), lens[d], 3);
      SizesReadBack(lens, m, p, n - 1);
      assert Dezigzag()[..n] == Dezigzag()[..n - 1] + [d];
    }
  }

  /** All 19 lengths are enough for any code for code lengths. */
  lemma DezigzagIsComplete(j: nat)
    requires j < 19
    ensures j in Dezigzag()[..19]
  {
    assert Dezigzag()[..19] == Dezigzag();
    var t := Dezigzag();
    assert t[3] == 0 && t[17] == 1 && t[15] == 2 && t[13] == 3 && t[11] == 4 && t[9] == 5 && t[7] == 6;
    assert t[5] == 7 && t[4] == 8 && t[6] == 9 && t[8] == 10 && t[10] == 11 && t[12] == 12 && t[14] == 13;
    assert t[16] == 14 && t[18] == 15 && t[0] == 16 && t[1] == 17 && t[2] == 18;
  }

  /** A way to write the codes of a block: the code for code lengths, how much of it is sent, and items. */
  datatype Sent = Sent(hlit: nat, hdist: nat, hclen: nat, lens: seq<nat>, items: seq<Item>)

  ghost predicate Sendable(s: Sent) {
    && 257 <= s.hlit <= 288 && 1 <= s.hdist <= 32 && 4 <= s.hclen <= 19
    && |s.lens| == 19 && (forall j | 0 <= j < 19 :: s.lens[j] < 8 && (j in Dezigzag()[..s.hclen] || s.lens[j] == 0))
    && ValidLengths(s.lens) && Kraft(s.lens) <= Pow2(15)
    && (forall i | 0 <= i < |s.items| :: Writable(s.lens, s.items[i]))
    && Fill(s.items, [], s.hlit + s.hdist)
  }

  /** The lengths that are sent. */
  ghost function SentLengths(s: Sent): seq<nat>
    requires Sendable(s)
  {
    Filled(s.items, [], s.hlit + s.hdist)
  }

  ghost function CountBits(s: Sent): (e: seq<nat>)
    requires Sendable(s)
    ensures |e| == 14
  {
    Little(s.hlit - 257, 5) + (Little(s.hdist - 1, 5) + Little(s.hclen - 4, 4))
  }

  ghost function HeaderBits(s: Sent): seq<nat>
    requires Sendable(s)
  {
    CountBits(s) + (SizeBits(s.lens, s.hclen) + ItemsBits(s.lens, s.items))
  }

  lemma CountsReadBack(m: Memory, p: nat, s: Sent)
    requires Sendable(s) && Holds(m, p, CountBits(s))
    ensures Window(m, p, 5) + 257 == s.hlit && Window(m, p + 5, 5) + 1 == s.hdist && Window(m, p + 10, 4) + 4 == s.hclen
  {
    hide *;
    CountBitsAre(s);
    ThreeNumbers(m, p, s.hlit - 257, s.hdist - 1, s.hclen - 4);
  }

  lemma CountBitsAre(s: Sent)
    requires Sendable(s)
    ensures 257 <= s.hlit <= 288 && 1 <= s.hdist <= 32 && 4 <= s.hclen <= 19
    ensures CountBits(s) == Little(s.hlit - 257, 5) + (Little(s.hdist - 1, 5) + Little(s.hclen - 4, 4))
  {
    hide Little;
  }

  lemma ThreeNumbers(m: Memory, p: nat, x: nat, y: nat, z: nat)
    requires x < 32 && y < 32 && z < 16 && Holds(m, p, Little(x, 5) + (Little(y, 5) + Little(z, 4)))
    ensures Window(m, p, 5) == x && Window(m, p + 5, 5) == y && Window(m, p + 10, 4) == z
  {
    hide *;
    SmallPowers();
    HoldsParts(m, p, Little(x, 5), Little(y, 5) + Little(z, 4));
    HoldsParts(m, p + 5, Little(y, 5), Little(z, 4));
    HoldsLittle(m, p, x, 5);
    HoldsLittle(m, p + 5, y, 5);
    HoldsLittle(m, p + 10, z, 4);
  }

  lemma SmallPowers()
    ensures Pow2(4) == 16 && Pow2(5) == 32
  {
    assert Pow2(4) == 16;
  }

  lemma SendableParts(s: Sent)
    requires Sendable(s)
    ensures 257 <= s.hlit <= 288 && 1 <= s.hdist <= 32 && 4 <= s.hclen <= 19 && |s.lens| == 19
    ensures ValidLengths(s.lens) && Kraft(s.lens) <= Pow2(15) && Fill(s.items, [], s.hlit + s.hdist)
    ensures forall j | 0 <= j < 19 :: s.lens[j] < 8 && (j in Dezigzag()[..s.hclen] || s.lens[j] == 0)
    ensures forall i | 0 <= i < |s.items| :: Writable(s.lens, s.items[i])
    ensures SentLengths(s) == Filled(s.items, [], s.hlit + s.hdist)
    ensures HeaderBits(s) == CountBits(s) + (SizeBits(s.lens, s.hclen) + ItemsBits(s.lens, s.items))
  {
    hide ValidLengths, Kraft, Pow2, Fill, Filled, Dezigzag, Writable, CountBits, SizeBits, ItemsBits;
  }

  lemma LengthsAtReadBack(m: Memory, q: nat, s: Sent)
    requires Sendable(s) && |s.lens| == 19 && s.hclen <= 19
    requires forall i | 0 <= i < |s.items| :: Writable(s.lens, s.items[i])
    requires Holds(m, q, SizeBits(s.lens, s.hclen) + ItemsBits(s.lens, s.items))
    ensures LengthsAt(m, q, s.hclen, s.hlit + s.hdist)
         == Lengths(SentLengths(s), q + 3 * s.hclen + |ItemsBits(s.lens, s.items)|)
  {
    hide *;
    SendableParts(s);
    HoldsParts(m, q, SizeBits(s.lens, s.hclen), ItemsBits(s.lens, s.items));
    SizesReadBack(s.lens, m, q, s.hclen);
    assert CodeLengthSizes(m, q, s.hclen) == s.lens;
    ItemsReadBack(s.lens, m, q + 3 * s.hclen, s.items, [], s.hlit + s.hdist);
    LengthsAtIs(m, q, s.hclen, s.hlit + s.hdist);
  }

  /** Both parts of the lengths leave their codes room. */
  ghost predicate BothFit(lens: seq<nat>, hlit: nat)
    requires hlit <= |lens| && forall i | 0 <= i < |lens| :: lens[i] <= 15
  {
    Kraft(lens[..hlit]) <= Pow2(15) && Kraft(lens[hlit..]) <= Pow2(15)
  }

  /** A header is read back: any lengths that leave their codes room, in whatever way they are sent; no others. */
  lemma HeaderReadsBack(m: Memory, p: nat, s: Sent)
    requires Sendable(s) && Holds(m, p, HeaderBits(s))
    ensures |SentLengths(s)| == s.hlit + s.hdist && forall i | 0 <= i < |SentLengths(s)| :: SentLengths(s)[i] <= 15
    ensures BothFit(SentLengths(s), s.hlit) ==>
      ReadHeader(m, p)
      == Header(Codes(SentLengths(s)[..s.hlit], SentLengths(s)[s.hlit..]), p + |HeaderBits(s)|)
    ensures !BothFit(SentLengths(s), s.hlit) ==> ReadHeader(m, p) == NoHeader
  {
    hide *;
    SendableParts(s);
    HoldsParts(m, p, CountBits(s), SizeBits(s.lens, s.hclen) + ItemsBits(s.lens, s.items));
    CountsReadBack(m, p, s);
    LengthsAtReadBack(m, p + 14, s);
    HeaderIs(m, p, s.hlit, s.hdist, s.hclen);
    SplitIs(LengthsAt(m, p + 14, s.hclen, s.hlit + s.hdist), s.hlit);
    BothFitIs(SentLengths(s), s.hlit);
  }

  lemma BothFitIs(lens: seq<nat>, hlit: nat)
    requires hlit <= |lens| && forall i | 0 <= i < |lens| :: lens[i] <= 15
    ensures BothFit(lens, hlit) <==> Kraft(lens[..hlit]) <= Pow2(15) && Kraft(lens[hlit..]) <= Pow2(15)
  {
    hide Kraft, Pow2;
  }
}
