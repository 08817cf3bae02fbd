/** Encoding is undone by decoding: tokens written with any codes are read back from any stream that holds them. */
module DeflateEncodings {
  import opened BitOps
  import opened BitStreams
  import opened CanonicalCodes
  import opened HuffmanDecoders
  import opened DeflateBlocks

  /** The stream holds the bits `e` at `p`. */
  ghost predicate Holds(m: Memory, p: nat, e: seq<nat>) {
    Bits(m, p, |e|) == e
  }

  /** The `n` bits of `x`, least significant first. */
  function Little(x: nat, n: nat): (s: seq<nat>)
    ensures |s| == n
  {
    if n == 0 then [] else [x % 2] + Little(x / 2, n - 1)
  }

  /** A literal, or a length and a distance symbol with their extra bits. */
  datatype Symbol = Byte(b: Byte) | Pair(l: nat, lx: nat, d: nat, dx: nat)

  /** The codes have all that the symbol takes. */
  ghost predicate Encodable(c: Codes, y: Symbol) {
    match y
    case Byte(b) => b < |c.literal| && c.literal[b] > 0
    case Pair(l, lx, d, dx) =>
      && l <= 30 && 257 + l < |c.literal| && c.literal[257 + l] > 0 && lx < Pow2(LengthExtra()[l])
      && d <= 31 && d < |c.distance| && c.distance[d] > 0 && dx < Pow2(DistExtra()[d])
  }

  /** The standard's tables have no such length or no such distance. */
  predicate Reserved(y: Symbol) {
    y.Pair? && (OffTable(y.l, y.lx) || y.d > 29)
  }

  ghost function SymbolBits(c: Codes, y: Symbol): seq<nat>
    requires Encodable(c, y)
  {
    match y
    case Byte(b) => CodeBits(c.literal, b)
    case Pair(l, lx, d, dx) =>
      CodeBits(c.literal, 257 + l) + (Little(lx, LengthExtra()[l])
      + (CodeBits(c.distance, d) + Little(dx, DistExtra()[d])))
  }

  ghost function TokenOf(y: Symbol): Token
    requires y.Pair? ==> y.l <= 30 && y.d <= 31
  {
    match y
    case Byte(b) => Literal(b)
    case Pair(l, lx, d, dx) => Copy(LengthBase()[l] + lx, DistBase()[d] + dx)
  }

  // ---- Streams that hold bits

  lemma HoldsParts(m: Memory, p: nat, e: seq<nat>, f: seq<nat>)
    requires Holds(m, p, e + f)
    ensures Holds(m, p, e) && Holds(m, p + |e|, f)
  {
    BitsSplit(m, p, |e|, |f|);
    assert Bits(m, p, |e|) == Bits(m, p, |e| + |f|)[..|e|] == (e + f)[..|e|] == e;
    assert Bits(m, p + |e|, |f|) == Bits(m, p, |e| + |f|)[|e|..] == (e + f)[|e|..] == f;
  }

  lemma {:induction false} HoldsLittle(m: Memory, p: nat, x: nat, n: nat)
    requires x < Pow2(n) && Holds(m, p, Little(x, n))
    ensures Window(m, p, n) == x
    decreases n
  {
    if n > 0 {
      HoldsParts(m, p, [x % 2], Little(x / 2, n - 1));
      assert Bits(m, p, 1)[0] == BitAt(m, p);
      HoldsLittle(m, p + 1, x / 2, n - 1);
    }
  }

  /** A code in the stream is decoded, and its bits are what is taken. */
  lemma HoldsCode(lens: seq<nat>, m: Memory, p: nat, i: nat)
    requires ValidLengths(lens) && Kraft(lens) <= Pow2(15) && i < |lens| && lens[i] > 0
    requires Holds(m, p, CodeBits(lens, i))
    ensures Decoded(lens, m, p) == i && Taken(lens, i) == lens[i] == |CodeBits(lens, i)|
  {
    DecodesWhatIsThere(lens, m, p, i);
  }

  lemma DistanceFrom(c: Codes, m: Memory, p: nat, d: nat, length: nat, reserved: bool)
    requires ValidCodes(c) && d <= 31 && Decoded(c.distance, m, p) == d < |c.distance|
    ensures ReadDistance(c, m, p, length, reserved)
         == Reading(Copy(length, DistBase()[d] + Window(m, p + Taken(c.distance, d), DistExtra()[d])),
                    p + Taken(c.distance, d) + DistExtra()[d], reserved || d >= 30)
  {
    hide DistBase, DistExtra, Decoded, Window;
  }

  lemma DistanceReadsBack(c: Codes, m: Memory, p: nat, d: nat, dx: nat, length: nat, reserved: bool)
    requires ValidCodes(c) && d <= 31 && d < |c.distance| && c.distance[d] > 0 && dx < Pow2(DistExtra()[d])
    requires Holds(m, p, CodeBits(c.distance, d) + Little(dx, DistExtra()[d]))
    ensures ReadDistance(c, m, p, length, reserved)
         == Reading(Copy(length, DistBase()[d] + dx), p + |CodeBits(c.distance, d)| + DistExtra()[d],
                    reserved || d >= 30)
  {
    hide *;
    CodesAreValid(c);
    HoldsParts(m, p, CodeBits(c.distance, d), Little(dx, DistExtra()[d]));
    HoldsCode(c.distance, m, p, d);
    DistanceFrom(c, m, p, d, length, reserved);
    HoldsLittle(m, p + |CodeBits(c.distance, d)|, dx, DistExtra()[d]);
  }

  lemma PairBits(c: Codes, y: Symbol)
    requires y.Pair? && Encodable(c, y)
    ensures y.l <= 30 && 257 + y.l < |c.literal| && c.literal[257 + y.l] > 0 && y.lx < Pow2(LengthExtra()[y.l])
    ensures y.d <= 31 && y.d < |c.distance| && c.distance[y.d] > 0 && y.dx < Pow2(DistExtra()[y.d])
    ensures SymbolBits(c, y)
         == CodeBits(c.literal, 257 + y.l) + (Little(y.lx, LengthExtra()[y.l])
            + (CodeBits(c.distance, y.d) + Little(y.dx, DistExtra()[y.d])))
    ensures TokenOf(y) == Copy(LengthBase()[y.l] + y.lx, DistBase()[y.d] + y.dx)
  {
    hide DistBase, LengthBase, DistExtra, LengthExtra, Little, Pow2, CodeBits;
  }

  lemma PairReadsBack(c: Codes, m: Memory, p: nat, y: Symbol)
    requires ValidCodes(c) && y.Pair? && Encodable(c, y) && Holds(m, p, SymbolBits(c, y))
    ensures ReadToken(c, m, p) == Reading(TokenOf(y), p + |SymbolBits(c, y)|, Reserved(y))
  {
    hide *;
    CodesAreValid(c);
    PairBits(c, y);
    var l, x := y.l, LengthExtra()[y.l];
    var a, e := CodeBits(c.literal, 257 + l), Little(y.lx, x);
    var b, f := CodeBits(c.distance, y.d), Little(y.dx, DistExtra()[y.d]);
    HoldsThree(m, p, a, e, b + f);
    PairFrom(c, m, p, y, a, e, b + f);
    ReservedPair(y);
    assert |SymbolBits(c, y)| == |a| + |e| + |b + f|;
  }

  lemma ReservedPair(y: Symbol)
    requires y.Pair?
    ensures Reserved(y) <==> OffTable(y.l, y.lx) || y.d > 29
  {
  }

  lemma HoldsThree(m: Memory, p: nat, a: seq<nat>, e: seq<nat>, g: seq<nat>)
    requires Holds(m, p, a + (e + g))
    ensures Holds(m, p, a) && Holds(m, p + |a|, e) && Holds(m, p + |a| + |e|, g)
  {
    hide *;
    HoldsParts(m, p, a, e + g);
    HoldsParts(m, p + |a|, e, g);
  }

  lemma PairFrom(c: Codes, m: Memory, p: nat, y: Symbol, a: seq<nat>, e: seq<nat>, g: seq<nat>)
    requires ValidCodes(c) && y.Pair? && Encodable(c, y)
    requires y.l <= 30 && 257 + y.l < |c.literal| && y.d <= 31 && y.d < |c.distance|
    requires a == CodeBits(c.literal, 257 + y.l) && e == Little(y.lx, LengthExtra()[y.l])
    requires g == CodeBits(c.distance, y.d) + Little(y.dx, DistExtra()[y.d])
    requires Holds(m, p, a) && Holds(m, p + |a|, e) && Holds(m, p + |a| + |e|, g)
    ensures ReadToken(c, m, p) == Reading(TokenOf(y), p + |a| + |e| + |g|, OffTable(y.l, y.lx) || y.d > 29)
  {
    hide *;
    CodesAreValid(c);
    PairBits(c, y);
    var l, x := y.l, LengthExtra()[y.l];
    HoldsCode(c.literal, m, p, 257 + l);
    HoldsLittle(m, p + |a|, y.lx, x);
    ReadTokenOfLength(c, m, p, l, p + |a|);
    DistanceReadsBack(c, m, p + |a| + x, y.d, y.dx, LengthBase()[l] + y.lx, OffTable(l, y.lx));
  }

  /** One symbol. */
  lemma SymbolReadsBack(c: Codes, m: Memory, p: nat, y: Symbol)
    requires ValidCodes(c) && Encodable(c, y) && Holds(m, p, SymbolBits(c, y))
    ensures ReadToken(c, m, p) == Reading(TokenOf(y), p + |SymbolBits(c, y)|, Reserved(y))
  {
    if y.Pair? {
      PairReadsBack(c, m, p, y);
    } else {
      HoldsCode(c.literal, m, p, y.b);
    }
  }

  // ---- Blocks

  /** The output of `symbols`, as the standard words it; distances must stay within the output. */
  ghost predicate Expandable(symbols: seq<Symbol>, out: seq<Byte>)
    decreases |symbols|
  {
    symbols == [] || (InReach(symbols[0], out) && Expandable(symbols[1..], ExpandOne(symbols[0], out)))
  }

  ghost predicate InReach(y: Symbol, out: seq<Byte>) {
    y.Pair? ==> y.l <= 28 && y.d <= 29 && 0 < DistBase()[y.d] + y.dx <= |out|
  }

  ghost function ExpandOne(y: Symbol, out: seq<Byte>): seq<Byte>
    requires InReach(y, out)
  {
    match y
    case Byte(b) => out + [b]
    case Pair(l, lx, d, dx) => Repeat(out, LengthBase()[l] + lx, DistBase()[d] + dx)
  }

  ghost function Expansion(symbols: seq<Symbol>, out: seq<Byte>): seq<Byte>
    requires Expandable(symbols, out)
    decreases |symbols|
  {
    if symbols == [] then out else Expansion(symbols[1..], ExpandOne(symbols[0], out))
  }

  /** The end-of-block symbol has a code. */
  ghost predicate EndCoded(c: Codes) {
    256 < |c.literal| && c.literal[256] > 0
  }

  ghost predicate AllEncodable(c: Codes, symbols: seq<Symbol>) {
    && EndCoded(c)
    && forall i | 0 <= i < |symbols| :: Encodable(c, symbols[i]) && !Reserved(symbols[i])
  }

  ghost function BlockBits(c: Codes, symbols: seq<Symbol>): seq<nat>
    requires AllEncodable(c, symbols)
    decreases |symbols|
  {
    if symbols == [] then CodeBits(c.literal, 256)
    else SymbolBits(c, symbols[0]) + BlockBits(c, symbols[1..])
  }

  /**
   * A stream that holds an encoded block is decoded to exactly what the block stands for, up to exactly its last bit.
   */
  lemma {:induction false} BlockReadsBack(
      c: Codes, m: Memory, p: nat, out: seq<Byte>, symbols: seq<Symbol>)
    requires ValidCodes(c) && AllEncodable(c, symbols) && Expandable(symbols, out)
    requires Holds(m, p, BlockBits(c, symbols))
    ensures StandardBlock(c, m, p, out, |symbols| + 1)
         == Done(Expansion(symbols, out), p + |BlockBits(c, symbols)|)
    decreases |symbols|
  {
    hide Encodable, Reserved, SymbolBits, ReadToken, Holds, TokenOf, CodeBits, ExpandOne, InReach;
    if symbols == [] {
      EndReadsBack(c, m, p);
    } else {
      var y := symbols[0];
      assert Encodable(c, y) && !Reserved(y);
      HoldsParts(m, p, SymbolBits(c, y), BlockBits(c, symbols[1..]));
      SymbolReadsBack(c, m, p, y);
      BlockReadsBack(c, m, p + |SymbolBits(c, y)|, ExpandOne(y, out), symbols[1..]);
      ExpandsAsRead(y, out);
    }
  }

  lemma EndReadsBack(c: Codes, m: Memory, p: nat)
    requires ValidCodes(c) && EndCoded(c) && Holds(m, p, CodeBits(c.literal, 256))
    ensures ReadToken(c, m, p) == Reading(EndOfBlock, p + |CodeBits(c.literal, 256)|, false)
  {
    HoldsCode(c.literal, m, p, 256);
  }

  lemma ExpandsAsRead(y: Symbol, out: seq<Byte>)
    requires InReach(y, out)
    ensures y.Byte? ==> TokenOf(y) == Literal(y.b) && ExpandOne(y, out) == out + [y.b]
    ensures y.Pair? ==> TokenOf(y).Copy? && 0 < TokenOf(y).distance <= |out|
    ensures y.Pair? ==> ExpandOne(y, out) == Repeat(out, TokenOf(y).length, TokenOf(y).distance)
  {
  }

  // ---- Every bit string is what some memory holds

  function ByteFrom(e: seq<nat>, q: nat, n: nat): (b: nat)
    ensures b < Pow2(n)
    decreases n
  {
    if n == 0 then 0 else (if q < |e| && e[q] == 1 then 1 else 0) + 2 * ByteFrom(e, q + 1, n - 1)
  }

  function MemoryOf(e: seq<nat>): Memory {
    z => ByteAtFrom(e, z)
  }

  function ByteAtFrom(e: seq<nat>, z: nat): Byte {
    assert Pow2(4) == 16 && Pow2(8) == 256;
    ByteFrom(e, 8 * z, 8)
  }

  lemma {:induction false} BitFrom(e: seq<nat>, q: nat, n: nat, j: nat)
    requires j < n
    ensures BitOf(ByteFrom(e, q, n), j) == if q + j < |e| && e[q + j] == 1 then 1 else 0
    decreases n
  {
    if j > 0 {
      assert ByteFrom(e, q, n) / 2 == ByteFrom(e, q + 1, n - 1);
      BitFrom(e, q + 1, n - 1, j - 1);
    }
  }

  lemma BitOfMemory(e: seq<nat>, q: nat)
    ensures BitAt(MemoryOf(e), q) == if q < |e| && e[q] == 1 then 1 else 0
  {
    BitFrom(e, 8 * (q / 8), 8, q % 8);
    assert q == 8 * (q / 8) + q % 8;
    hide BitOf, ByteFrom;
  }

  predicate AreBits(e: seq<nat>) {
    forall i | 0 <= i < |e| :: e[i] <= 1
  }

  lemma {:induction false} MemoryHolds(e: seq<nat>, n: nat)
    requires n <= |e| && AreBits(e)
    ensures Bits(MemoryOf(e), 0, n) == e[..n]
  {
    hide BitAt, MemoryOf;
    if n > 0 {
      MemoryHolds(e, n - 1);
      BitOfMemory(e, n - 1);
      assert e[..n] == e[..n - 1] + [e[n - 1]];
    }
  }

  lemma {:induction false} DigitsAreBits(x: nat, n: nat)
    ensures AreBits(Digits(x, n)) && AreBits(Little(x, n))
    decreases n
  {
    if n > 0 {
      DigitsAreBits(x / 2, n - 1);
    }
  }

  lemma SymbolAreBits(c: Codes, y: Symbol)
    requires Encodable(c, y) && y.Pair?
    ensures AreBits(SymbolBits(c, y))
  {
    DigitsAreBits(CodeOf(c.literal, 257 + y.l), c.literal[257 + y.l]);
    DigitsAreBits(CodeOf(c.distance, y.d), c.distance[y.d]);
    DigitsAreBits(y.lx, LengthExtra()[y.l]);
    DigitsAreBits(y.dx, DistExtra()[y.d]);
    hide Digits, Little, CodeOf, LengthExtra, DistExtra, LengthBase, DistBase, Pow2;
  }

  /** The longest distance whose extra bits are zero. */
  const FARTHEST: nat := 24577

  lemma BasesInReach(d: nat)
    requires d <= 31
    ensures DistBase()[d] <= FARTHEST
  {
  }

  /** A copy that is in no table, wherever UsesReserved has the codes for one. */
  function PairOffTable(l: nat, d: nat): Symbol
    requires l >= 257
  {
    Pair(l - 257, if l == 284 then 31 else 0, d, 0)
  }

  lemma PairIsEncodable(c: Codes, l: nat, d: nat)
    requires ValidCodes(c) && UsesReserved(c, l, d)
    ensures Encodable(c, PairOffTable(l, d)) && Reserved(PairOffTable(l, d))
  {
    LengthsTile(27);
    hide LengthExtra, DistExtra, Pow2, Kraft;
  }

  /** The code of the end-of-block symbol, if it has one. */
  ghost function EndBits(c: Codes): (e: seq<nat>)
    ensures AreBits(e)
    ensures EndCoded(c) ==> e == CodeBits(c.literal, 256)
  {
    if EndCoded(c) then
      DigitsAreBits(CodeOf(c.literal, 256), c.literal[256]);
      CodeBits(c.literal, 256)
    else []
  }

  lemma HoldsWhole(e: seq<nat>)
    requires AreBits(e)
    ensures Holds(MemoryOf(e), 0, e)
  {
    MemoryHolds(e, |e|);
    assert e[..|e|] == e;
  }

  lemma BitsJoined(a: seq<nat>, b: seq<nat>)
    requires AreBits(a) && AreBits(b)
    ensures AreBits(a + b)
  {
  }

  /** Some memory holds a symbol and behind it the end-of-block symbol. */
  lemma StreamOf(c: Codes, y: Symbol) returns (m: Memory)
    requires ValidCodes(c) && y.Pair? && Encodable(c, y)
    ensures y.l <= 30 && y.d <= 31
    ensures ReadToken(c, m, 0) == Reading(TokenOf(y), |SymbolBits(c, y)|, Reserved(y))
    ensures EndCoded(c) ==> ReadToken(c, m, |SymbolBits(c, y)|).token.EndOfBlock?
  {
    hide *;
    PairBits(c, y);
    SymbolAreBits(c, y);
    var e := SymbolBits(c, y) + EndBits(c);
    m := MemoryOf(e);
    BitsJoined(SymbolBits(c, y), EndBits(c));
    HoldsWhole(e);
    HoldsParts(m, 0, SymbolBits(c, y), EndBits(c));
    SymbolReadsBack(c, m, 0, y);
    if EndCoded(c) {
      EndReadsBack(c, m, |SymbolBits(c, y)|);
    }
  }

  lemma ReservedStep(c: Codes, m: Memory, spare: Memory, out: seq<Byte>, y: Symbol)
    requires ValidCodes(c) && y.Pair? && Encodable(c, y) && Reserved(y)
    requires y.d <= 31 && DistBase()[y.d] + y.dx <= |out|
    requires ReadToken(c, m, 0) == Reading(TokenOf(y), |SymbolBits(c, y)|, Reserved(y))
    ensures TokenOf(y).Copy? && TokenOf(y).distance <= |out|
    ensures Block(c, m, 0, spare, out, 1).Running?
    ensures Block(c, m, 0, spare, out, 2) == Block(
      c, m, |SymbolBits(c, y)|, spare, CopyBytes(out, spare, TokenOf(y).length, TokenOf(y).distance), 1)
    ensures forall steps: nat :: steps > 0 ==> StandardBlock(c, m, 0, out, steps).Failed?
  {
    hide ReadToken, SymbolBits, CopyBytes, LengthExtra, DistExtra, Pow2, ValidCodes;
  }

  lemma EndStep(c: Codes, m: Memory, p: nat, spare: Memory, out: seq<Byte>)
    requires ValidCodes(c) && ReadToken(c, m, p).token.EndOfBlock?
    ensures Block(c, m, p, spare, out, 1).Done?
  {
    hide ReadToken;
  }

  /**
   * Wherever codes can express a copy that is in no table, some stream makes the decoder go on where the standard
   * stops, and it accepts a whole block if the codes have an end-of-block symbol. With AgreesWithStandard: decoder and
   * standard agree on all streams exactly for codes that cannot express such a copy.
   */
  lemma ReservedGoesOn(c: Codes, spare: Memory) returns (m: Memory, out: seq<Byte>)
    requires ValidCodes(c) && ReservedReachable(c)
    ensures Block(c, m, 0, spare, out, 1).Running?
    ensures forall steps: nat :: steps > 0 ==> StandardBlock(c, m, 0, out, steps).Failed?
    ensures EndCoded(c) ==> Block(c, m, 0, spare, out, 2).Done?
  {
    var l: nat, d: nat :| UsesReserved(c, l, d);
    var y := PairOffTable(l, d);
    out := seq(FARTHEST, i => 0);
    assert y.Pair? && y.d == d && y.dx == 0;
    hide *;
    PairIsEncodable(c, l, d);
    BasesInReach(d);
    m := StreamOf(c, y);
    ReservedStep(c, m, spare, out, y);
    if EndCoded(c) {
      EndStep(c, m, |SymbolBits(c, y)|, spare, CopyBytes(out, spare, TokenOf(y).length, TokenOf(y).distance));
    }
  }

  /** Decoder and standard agree everywhere if and only if the codes cannot express a copy that is in no table. */
  lemma AgreesExactly(c: Codes, spare: Memory)
    requires ValidCodes(c)
    ensures !ReservedReachable(c) <==>
      forall m: Memory, p: nat, out: seq<Byte>, steps: nat ::
        Block(c, m, p, spare, out, steps) == StandardBlock(c, m, p, out, steps)
  {
    hide *;
    if ReservedReachable(c) {
      var m, out := ReservedGoesOn(c, spare);
      assert Block(c, m, 0, spare, out, 1) != StandardBlock(c, m, 0, out, 1);
    } else {
      forall m: Memory, p: nat, out: seq<Byte>, steps: nat
        ensures Block(c, m, p, spare, out, steps) == StandardBlock(c, m, p, out, steps)
      {
        AgreesWithStandard(c, m, p, spare, out, steps);
      }
    }
  }

  lemma EndNeedsCode(c: Codes, m: Memory, p: nat)
    requires ValidCodes(c) && ReadToken(c, m, p).token.EndOfBlock?
    ensures EndCoded(c)
  {
    hide DistBase, LengthBase, DistExtra, LengthExtra, Window, ReadDistance;
  }

  /** Without an end-of-block symbol no stream is ever accepted. */
  lemma {:induction false} NeverDone(c: Codes, m: Memory, p: nat, spare: Memory, out: seq<Byte>, steps: nat)
    requires ValidCodes(c) && !EndCoded(c)
    ensures !Block(c, m, p, spare, out, steps).Done?
    decreases steps
  {
    hide ReadToken, CopyBytes, ValidCodes, EndCoded;
    if steps > 0 {
      var r := ReadToken(c, m, p);
      match r.token
      case NoCode =>
      case EndOfBlock => EndNeedsCode(c, m, p);
      case Literal(b) =>
        NeverDone(c, m, r.next, spare, out + [b], steps - 1);
      case Copy(length, distance) =>
        if distance <= |out| {
          NeverDone(c, m, r.next, spare, CopyBytes(out, spare, length, distance), steps - 1);
        }
    }
  }
}
