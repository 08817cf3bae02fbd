/**
 * The symbols of a DEFLATE block and what they append (RFC 1951, sections 3.2.3 and 3.2.5), as the tables and tests of
 * ssfn.h have them.
 */
module DeflateBlocks {
  import opened BitOps
  import opened BitStreams
  import opened CanonicalCodes
  import opened HuffmanDecoders

  function LengthBase(): (t: seq<nat>)
    ensures |t| == 31
  {
    [3, 4, 5, 6, 7, 8, 9, 10, 11, 13, 15, 17, 19, 23, 27, 31, 35, 43, 51, 59,
     67, 83, 99, 115, 131, 163, 195, 227, 258, 0, 0]
  }

  function LengthExtra(): (t: seq<nat>)
    ensures |t| == 31 && forall i | 0 <= i < 31 :: t[i] <= 5
  {
    [0, 0, 0, 0, 0, 0, 0, 0, 1, 1, 1, 1, 2, 2, 2, 2, 3, 3, 3, 3, 4, 4, 4, 4, 5, 5, 5, 5, 0, 0, 0]
  }

  function DistBase(): (t: seq<nat>)
    ensures |t| == 32
  {
    [1, 2, 3, 4, 5, 7, 9, 13, 17, 25, 33, 49, 65, 97, 129, 193,
     257, 385, 513, 769, 1025, 1537, 2049, 3073, 4097, 6145, 8193, 12289, 16385, 24577, 0, 0]
  }

  function DistExtra(): (t: seq<nat>)
    ensures |t| == 32 && forall i | 0 <= i < 32 :: t[i] <= 13
  {
    [0, 0, 0, 0, 1, 1, 2, 2, 3, 3, 4, 4, 5, 5, 6, 6, 7, 7, 8, 8, 9, 9, 10, 10, 11, 11, 12, 12, 13, 13, 0, 0]
  }

  /** Consecutive ranges of lengths from 3, the last but one cut short by one; 258 has a symbol of its own. */
  lemma LengthsTile(l: nat)
    requires l < 28
    ensures LengthBase()[0] == 3 && LengthBase()[28] == 258 && LengthExtra()[28] == 0
    ensures Pow2(LengthExtra()[27]) == 32
    ensures LengthBase()[l] + Pow2(LengthExtra()[l]) - (if l == 27 then 1 else 0) == LengthBase()[l + 1]
  {
    PowersUpTo13();
    hide Pow2;
  }

  /** Extra bits that section 3.2.5 gives no length: its symbol 284 ends at 257, and 286 and 287 do not occur. */
  predicate OffTable(l: nat, x: nat) {
    l >= 29 || (l == 27 && x == 31)
  }

  /** Consecutive ranges of distances from 1 to 32768. */
  lemma DistancesTile(d: nat)
    requires d < 30
    ensures DistBase()[0] == 1
    ensures DistBase()[d] + Pow2(DistExtra()[d]) == if d < 29 then DistBase()[d + 1] else 32769
  {
    PowersUpTo13();
    hide Pow2;
  }

  /**
   * The extra bits of section 3.2.5: none for the first symbols, then one more for every four lengths and for every two
   * distances. With the tilings, which start at 3 and at 1, this fixes both tables.
   */
  lemma ExtraBitsRise()
    ensures forall l | 0 <= l < 28 :: LengthExtra()[l] == if l < 8 then 0 else (l - 4) / 4
    ensures forall d | 0 <= d < 30 :: DistExtra()[d] == if d < 4 then 0 else (d - 2) / 2
  {
  }

  /** The entries that no table of the standard has: nothing to add, so a length or a distance of zero. */
  lemma ReservedEntries(i: nat)
    requires i < 2
    ensures LengthBase()[29 + i] == 0 && LengthExtra()[29 + i] == 0
    ensures DistBase()[30 + i] == 0 && DistExtra()[30 + i] == 0
  {
  }

  /** The lengths and distances that begin a stretch of symbols with equally many extra bits, x. */
  lemma BasesOfStretches(x: nat)
    requires 0 < x
    ensures x <= 5 ==> LengthBase()[4 + 4 * x] == 3 + 4 * Pow2(x)
    ensures x <= 13 ==> DistBase()[2 + 2 * x] == 1 + 2 * Pow2(x)
  {
    PowersUpTo13();
    hide Pow2;
  }

  lemma PowersUpTo13()
    ensures Pow2(0) == 1 && Pow2(1) == 2 && Pow2(2) == 4 && Pow2(3) == 8 && Pow2(4) == 16 && Pow2(5) == 32
    ensures Pow2(6) == 64 && Pow2(7) == 128 && Pow2(8) == 256 && Pow2(9) == 512 && Pow2(10) == 1024
    ensures Pow2(11) == 2048 && Pow2(12) == 4096 && Pow2(13) == 8192
  {
    assert Pow2(4) == 16 && Pow2(8) == 256 && Pow2(12) == 4096;
  }

  /** It leaves exactly the lengths from 3 to 258, and 258 only to the symbol of its own. */
  lemma OffTableExactly(l: nat, x: nat)
    requires l <= 30 && x < Pow2(LengthExtra()[l])
    ensures !OffTable(l, x) <==> 3 <= LengthBase()[l] + x <= 258 && (LengthBase()[l] + x == 258 ==> l == 28)
  {
    PowersUpTo13();
    if l < 28 {
      LengthsTile(l);
      BasesRise(l);
    }
    hide Pow2;
  }

  lemma BasesRise(l: nat)
    requires l < 28
    ensures 3 <= LengthBase()[l] && (l < 27 ==> LengthBase()[l + 1] <= 227) && LengthBase()[27] == 227
  {
  }

  /** Every length of section 3.2.5 has a symbol and extra bits. */
  lemma LengthHasSymbol(length: nat) returns (l: nat, x: nat)
    requires 3 <= length <= 258
    ensures l <= 28 && x < Pow2(LengthExtra()[l]) && LengthBase()[l] + x == length && !OffTable(l, x)
  {
    LengthsTile(27);
    if length == 258 {
      l, x := 28, 0;
    } else {
      l, x := LengthBelow(length, 28);
    }
    hide Pow2;
  }

  lemma {:induction false} LengthBelow(length: nat, n: nat) returns (l: nat, x: nat)
    requires n <= 28 && 3 <= length < LengthBase()[n]
    ensures l < n && x < Pow2(LengthExtra()[l]) && LengthBase()[l] + x == length
    decreases n
  {
    hide *;
    LengthsTile(if n == 0 then 0 else n - 1);
    if LengthBase()[n - 1] <= length {
      l, x := n - 1, length - LengthBase()[n - 1];
    } else {
      l, x := LengthBelow(length, n - 1);
    }
  }

  /** ... and only one. */
  lemma LengthHasOneSymbol(l: nat, x: nat, k: nat, y: nat)
    requires l <= 28 && x < Pow2(LengthExtra()[l]) && !OffTable(l, x)
    requires k <= 28 && y < Pow2(LengthExtra()[k]) && !OffTable(k, y)
    requires LengthBase()[l] + x == LengthBase()[k] + y
    ensures l == k && x == y
  {
    hide LengthBase, LengthExtra, Pow2;
    if l < k {
      LengthsAscend(l, x, k);
    } else if k < l {
      LengthsAscend(k, y, l);
    }
  }

  lemma {:induction false} LengthsAscend(l: nat, x: nat, k: nat)
    requires l < k <= 28 && x < Pow2(LengthExtra()[l]) && !OffTable(l, x)
    ensures LengthBase()[l] + x < LengthBase()[k]
    decreases k
  {
    hide LengthBase, LengthExtra, Pow2;
    LengthsTile(k - 1);
    if l < k - 1 {
      LengthsAscend(l, x, k - 1);
      ExtraLeavesRoom(k - 1);
    }
  }

  lemma ExtraLeavesRoom(l: nat)
    requires l < 28
    ensures LengthBase()[l] <= LengthBase()[l + 1]
  {
  }

  /** Every distance up to 32768 has one. */
  lemma {:induction false} DistanceHasSymbol(distance: nat, n: nat) returns (d: nat, x: nat)
    requires n <= 30 && 1 <= distance < if n < 30 then DistBase()[n] else 32769
    ensures d < n && x < Pow2(DistExtra()[d]) && DistBase()[d] + x == distance
    decreases n
  {
    hide *;
    if n == 0 {
      DistancesTile(0);
      assert false;
    } else {
      DistancesTile(n - 1);
      if DistBase()[n - 1] <= distance {
        d, x := n - 1, distance - DistBase()[n - 1];
      } else {
        d, x := DistanceHasSymbol(distance, n - 1);
      }
    }
  }

  /** The codes of a block: lengths for literals and lengths, and for distances. */
  datatype Codes = Codes(literal: seq<nat>, distance: seq<nat>)

  ghost predicate ValidCodes(c: Codes) {
    && ValidLengths(c.literal) && Kraft(c.literal) <= Pow2(15)
    && ValidLengths(c.distance) && Kraft(c.distance) <= Pow2(15) && |c.distance| <= 32
  }

  lemma CodesAreValid(c: Codes)
    requires ValidCodes(c)
    ensures ValidLengths(c.literal) && Kraft(c.literal) <= Pow2(15)
    ensures ValidLengths(c.distance) && Kraft(c.distance) <= Pow2(15)
  {
  }

  datatype Token = Literal(b: Byte) | EndOfBlock | Copy(length: nat, distance: nat) | NoCode

  /** A token, where the stream goes on behind it, and whether it used what the standard's tables do not have. */
  datatype Reading = Reading(token: Token, next: nat, reserved: bool)

  /** The distance half of a copy. */
  ghost function ReadDistance(c: Codes, m: Memory, p: nat, length: nat, reserved: bool): (r: Reading)
    requires ValidCodes(c)
    ensures r.token.NoCode? || r.token.Copy?
  {
    var d := Decoded(c.distance, m, p);
    var q := p + Taken(c.distance, d);
    if d < 0 then Reading(NoCode, q, reserved)
    else Reading(Copy(length, DistBase()[d] + Window(m, q, DistExtra()[d])), q + DistExtra()[d], reserved || d >= 30)
  }

  ghost function ReadToken(c: Codes, m: Memory, p: nat): Reading
    requires ValidCodes(c)
  {
    var z := Decoded(c.literal, m, p);
    var q := p + Taken(c.literal, z);
    if z < 0 then Reading(NoCode, q, false)
    else if z < 256 then Reading(Literal(z), q, false)
    else if z == 256 then Reading(EndOfBlock, q, false)
    else
      ReadDistance(c, m, q + LengthExtra()[z - 257], LengthBase()[z - 257] + Window(m, q, LengthExtra()[z - 257]),
                   OffTable(z - 257, Window(m, q, LengthExtra()[z - 257])))
  }

  lemma ReadTokenOfLength(c: Codes, m: Memory, p: nat, l: nat, q: nat)
    requires ValidCodes(c) && l <= 30 && Decoded(c.literal, m, p) == 257 + l
    requires q == p + Taken(c.literal, 257 + l)
    ensures ReadToken(c, m, p) == ReadDistance(
      c, m, q + LengthExtra()[l], LengthBase()[l] + Window(m, q, LengthExtra()[l]),
      OffTable(l, Window(m, q, LengthExtra()[l])))
  {
    hide OffTable, DistBase, LengthBase, DistExtra, LengthExtra, Decoded, ReadDistance, Window;
  }

  // ---- Output

  /** The output buffer at `j`: behind the output it holds whatever memory held before. */
  function ByteAt(out: seq<Byte>, spare: Memory, j: nat): Byte {
    if j < |out| then out[j] else spare(j)
  }

  /** The copying loop: one byte after the other, so that a copy can read what it wrote. */
  function CopyBytes(out: seq<Byte>, spare: Memory, length: nat, distance: nat): seq<Byte>
    requires distance <= |out|
    decreases length
  {
    if length == 0 then out
    else CopyBytes(out + [ByteAt(out, spare, |out| - distance)], spare, length - 1, distance)
  }

  /** What a copy means: the last `distance` bytes, over and over (section 3.2.3). */
  function Repeat(out: seq<Byte>, length: nat, distance: nat): seq<Byte>
    requires 0 < distance <= |out|
  {
    out + seq(length, k requires 0 <= k => out[|out| - distance + k % distance])
  }

  lemma {:induction false} CopyIsRepeat(out: seq<Byte>, spare: Memory, length: nat, distance: nat)
    requires 0 < distance <= |out|
    ensures CopyBytes(out, spare, length, distance) == Repeat(out, length, distance)
    decreases length
  {
    if length > 0 {
      var next := out + [out[|out| - distance]];
      CopyIsRepeat(next, spare, length - 1, distance);
      RepeatStep(out, next, length, distance);
    }
  }

  lemma RepeatAt(out: seq<Byte>, length: nat, distance: nat, j: nat)
    requires 0 < distance <= |out| && j < |out| + length
    ensures |Repeat(out, length, distance)| == |out| + length
    ensures j < |out| ==> Repeat(out, length, distance)[j] == out[j]
    ensures j >= |out| ==> 0 <= (j - |out|) % distance < distance
    ensures j >= |out| ==> Repeat(out, length, distance)[j] == out[|out| - distance + (j - |out|) % distance]
  {
  }

  lemma RepeatStep(out: seq<Byte>, next: seq<Byte>, length: nat, distance: nat)
    requires 0 < distance <= |out| && length > 0 && next == out + [out[|out| - distance]]
    ensures Repeat(next, length - 1, distance) == Repeat(out, length, distance)
  {
    hide *;
    var r, t := Repeat(next, length - 1, distance), Repeat(out, length, distance);
    RepeatAt(next, length - 1, distance, 0);
    RepeatAt(out, length, distance, 0);
    forall j | 0 <= j < |t|
      ensures r[j] == t[j]
    {
      RepeatStepAt(out, next, length, distance, j);
    }
  }

  lemma RepeatStepAt(out: seq<Byte>, next: seq<Byte>, length: nat, distance: nat, j: nat)
    requires 0 < distance <= |out| && length > 0 && next == out + [out[|out| - distance]] && j < |out| + length
    requires |Repeat(next, length - 1, distance)| == |Repeat(out, length, distance)| == |out| + length
    ensures Repeat(next, length - 1, distance)[j] == Repeat(out, length, distance)[j]
  {
    hide *;
    RepeatAt(next, length - 1, distance, j);
    RepeatAt(out, length, distance, j);
    if j > |out| {
      Rotate(j - |out|, distance);
    } else if j == |out| {
      RemainderIs(0, distance, 0, 0);
    }
  }

  lemma Rotate(k: nat, d: nat)
    requires k > 0 && d > 0
    ensures k % d == if (k - 1) % d == d - 1 then 0 else (k - 1) % d + 1
  {
    var q := (k - 1) / d;
    assert k - 1 == q * d + (k - 1) % d;
    if (k - 1) % d == d - 1 {
      assert k == (q + 1) * d;
      RemainderIs(k, d, q + 1, 0);
    } else {
      RemainderIs(k, d, q, (k - 1) % d + 1);
    }
  }

  lemma RemainderIs(x: nat, d: nat, q: nat, r: nat)
    requires r < d && x == q * d + r
    ensures x % d == r
  {
    DivideIs(x, d, q, r);
  }

  /** A reserved distance copies what lies behind the output onto itself. */
  lemma {:induction false} CopyOfNothing(out: seq<Byte>, spare: Memory, length: nat)
    ensures CopyBytes(out, spare, length, 0) == out + seq(length, i requires i >= 0 => spare(|out| + i))
    decreases length
  {
    if length > 0 {
      var b := spare(|out|);
      CopyOfNothing(out + [b], spare, length - 1);
      var rest := seq(length - 1, i requires i >= 0 => spare(|out| + 1 + i));
      assert [b] + rest == seq(length, i requires i >= 0 => spare(|out| + i));
      assert (out + [b]) + rest == out + ([b] + rest);
    }
  }

  // ---- Blocks

  /** How far a block got in a number of tokens. */
  datatype Outcome = Done(out: seq<Byte>, next: nat) | Failed | Running

  ghost function Block(c: Codes, m: Memory, p: nat, spare: Memory, out: seq<Byte>, steps: nat): Outcome
    requires ValidCodes(c)
    decreases steps
  {
    if steps == 0 then Running
    else
      var r := ReadToken(c, m, p);
      match r.token
      case NoCode => Failed
      case EndOfBlock => Done(out, r.next)
      case Literal(b) => Block(c, m, r.next, spare, out + [b], steps - 1)
      case Copy(length, distance) =>
        if |out| < distance then Failed
        else Block(c, m, r.next, spare, CopyBytes(out, spare, length, distance), steps - 1)
  }

  /** A block that ends in some number of tokens ends the same way in any larger number. */
  lemma {:induction false} MoreSteps(
      c: Codes, m: Memory, p: nat, spare: Memory, out: seq<Byte>, steps: nat, more: nat)
    requires ValidCodes(c) && steps <= more && !Block(c, m, p, spare, out, steps).Running?
    ensures Block(c, m, p, spare, out, more) == Block(c, m, p, spare, out, steps)
    decreases steps
  {
    hide ReadToken, CopyBytes, ValidCodes;
    if steps > 0 {
      var r := ReadToken(c, m, p);
      match r.token
      case NoCode =>
      case EndOfBlock =>
      case Literal(b) =>
        MoreSteps(c, m, r.next, spare, out + [b], steps - 1, more - 1);
      case Copy(length, distance) =>
        if distance <= |out| {
          MoreSteps(c, m, r.next, spare, CopyBytes(out, spare, length, distance), steps - 1, more - 1);
        }
    }
  }

  /** The same with everything refused that the tables of section 3.2.5 do not have. */
  ghost function StandardBlock(c: Codes, m: Memory, p: nat, out: seq<Byte>, steps: nat): Outcome
    requires ValidCodes(c)
    decreases steps
  {
    if steps == 0 then Running
    else
      var r := ReadToken(c, m, p);
      if r.reserved then Failed
      else
        match r.token
        case NoCode => Failed
        case EndOfBlock => Done(out, r.next)
        case Literal(b) => StandardBlock(c, m, r.next, out + [b], steps - 1)
        case Copy(length, distance) =>
          if distance == 0 || |out| < distance then Failed
          else StandardBlock(c, m, r.next, Repeat(out, length, distance), steps - 1)
  }

  /** Some copy that the codes can express is in no table: 284 can have extra bits 31, the others no use at all. */
  ghost predicate ReservedReachable(c: Codes) {
    exists l: nat, d: nat :: UsesReserved(c, l, d)
  }

  ghost predicate UsesReserved(c: Codes, l: nat, d: nat) {
    && 257 <= l < |c.literal| && c.literal[l] > 0 && d < |c.distance| && c.distance[d] > 0
    && (l == 284 || l >= 286 || d >= 30)
  }

  /** Whatever the standard accepts is decoded as it says. */
  lemma {:induction false} StandardIsDecoded(
      c: Codes, m: Memory, p: nat, spare: Memory, out: seq<Byte>, steps: nat)
    requires ValidCodes(c) && !StandardBlock(c, m, p, out, steps).Failed?
    ensures Block(c, m, p, spare, out, steps) == StandardBlock(c, m, p, out, steps)
    decreases steps
  {
    hide ReadToken, ReadDistance, CopyBytes, Repeat, ValidCodes, ReservedReachable;
    if steps > 0 {
      var r := ReadToken(c, m, p);
      match r.token
      case NoCode =>
      case EndOfBlock =>
      case Literal(b) =>
        StandardIsDecoded(c, m, r.next, spare, out + [b], steps - 1);
      case Copy(length, distance) =>
        CopyIsRepeat(out, spare, length, distance);
        StandardIsDecoded(c, m, r.next, spare, Repeat(out, length, distance), steps - 1);
    }
  }

  /** A copy without reserved symbols has a distance of at least one. */
  lemma RegularCopy(c: Codes, m: Memory, p: nat)
    requires ValidCodes(c) && ReadToken(c, m, p).token.Copy? && !ReadToken(c, m, p).reserved
    ensures ReadToken(c, m, p).token.distance > 0
  {
    hide DistBase, DistExtra, LengthBase, LengthExtra, Decoded, Window, Taken;
    var z := Decoded(c.literal, m, p);
    var q := p + Taken(c.literal, z) + LengthExtra()[z - 257];
    var d := Decoded(c.distance, m, q);
    DistBasePositive(d);
  }

  lemma DistBasePositive(d: nat)
    requires d < 30
    ensures DistBase()[d] > 0
  {
  }

  lemma ReservedIsReachable(c: Codes, m: Memory, p: nat)
    requires ValidCodes(c) && ReadToken(c, m, p).reserved
    ensures ReadToken(c, m, p).token.NoCode? || ReservedReachable(c)
  {
    hide DistBase, DistExtra, LengthBase, LengthExtra, Decoded, Window, Taken;
    var z := Decoded(c.literal, m, p);
    var q := p + Taken(c.literal, z) + LengthExtra()[z - 257];
    var d := Decoded(c.distance, m, q);
    if d >= 0 {
      assert UsesReserved(c, z, d);
    }
  }

  /** Codes that cannot express a copy off the tables are decoded as the standard says, failures included. */
  lemma {:induction false} AgreesWithStandard(
      c: Codes, m: Memory, p: nat, spare: Memory, out: seq<Byte>, steps: nat)
    requires ValidCodes(c) && !ReservedReachable(c)
    ensures Block(c, m, p, spare, out, steps) == StandardBlock(c, m, p, out, steps)
    decreases steps
  {
    hide ReadToken, ReadDistance, CopyBytes, Repeat, ValidCodes, ReservedReachable;
    if steps > 0 {
      var r := ReadToken(c, m, p);
      if r.reserved {
        ReservedIsReachable(c, m, p);
      } else {
        match r.token
        case NoCode =>
        case EndOfBlock =>
        case Literal(b) =>
          AgreesWithStandard(c, m, r.next, spare, out + [b], steps - 1);
        case Copy(length, distance) =>
          RegularCopy(c, m, p);
          if distance <= |out| {
            CopyIsRepeat(out, spare, length, distance);
            AgreesWithStandard(c, m, r.next, spare, Repeat(out, length, distance), steps - 1);
          }
      }
    }
  }
}
