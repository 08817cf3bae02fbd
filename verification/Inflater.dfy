/** The block parser of ssfn.h: the state of `_ssfn__zbuf` behind the bit reader, and the loops that fill it. */
module Inflaters {
  import opened BitOps
  import opened BitStreams
  import opened CanonicalCodes
  import opened HuffmanTables
  import opened HuffmanDecoders
  import opened DeflateBlocks
  import opened DeflateHeaders

  /** What one turn of the parser's loop does, by the token read. */
  lemma Turn(c: Codes, m: Memory, p: nat, spare: Memory, out: seq<Byte>, steps: nat, r: Reading)
    requires ValidCodes(c) && steps > 0 && r == ReadToken(c, m, p)
    ensures r.token == NoCode ==> Block(c, m, p, spare, out, steps) == Failed
    ensures r.token == EndOfBlock ==> Block(c, m, p, spare, out, steps) == Done(out, r.next)
    ensures r.token.Literal? ==>
      Block(c, m, p, spare, out, steps) == Block(c, m, r.next, spare, out + [r.token.b], steps - 1)
    ensures r.token.Copy? && |out| < r.token.distance ==> Block(c, m, p, spare, out, steps) == Failed
    ensures r.token.Copy? && |out| >= r.token.distance ==>
      Block(c, m, p, spare, out, steps)
      == Block(c, m, r.next, spare, CopyBytes(out, spare, r.token.length, r.token.distance), steps - 1)
  {
    hide ReadToken, CopyBytes;
  }

  lemma ReadTokenOfSymbol(c: Codes, m: Memory, p: nat, z: int, q: nat)
    requires ValidCodes(c) && z == Decoded(c.literal, m, p) && z <= 256 && q == p + Taken(c.literal, z)
    ensures z < 0 ==> ReadToken(c, m, p) == Reading(NoCode, q, false)
    ensures z == 256 ==> ReadToken(c, m, p) == Reading(EndOfBlock, q, false)
    ensures 0 <= z < 256 ==> ReadToken(c, m, p) == Reading(Literal(z), q, false)
  {
    hide Decoded, ReadDistance, LengthBase, LengthExtra, Window;
  }

  lemma TurnOnSymbol(c: Codes, m: Memory, p: nat, spare: Memory, out: seq<Byte>, steps: nat, z: int, q: nat)
    requires ValidCodes(c) && steps > 0 && z == Decoded(c.literal, m, p) && z <= 256 && q == p + Taken(c.literal, z)
    ensures z < 0 ==> Block(c, m, p, spare, out, steps) == Failed
    ensures z == 256 ==> Block(c, m, p, spare, out, steps) == Done(out, q)
    ensures 0 <= z < 256 ==> Block(c, m, p, spare, out, steps) == Block(c, m, q, spare, out + [z], steps - 1)
  {
    hide *;
    ReadTokenOfSymbol(c, m, p, z, q);
    Turn(c, m, p, spare, out, steps, ReadToken(c, m, p));
  }

  lemma TurnOnLength(c: Codes, m: Memory, p: nat, spare: Memory, out: seq<Byte>, steps: nat, l: nat, q: nat)
    requires ValidCodes(c) && steps > 0 && l <= 30 && 257 + l == Decoded(c.literal, m, p)
    requires q == p + Taken(c.literal, 257 + l)
    ensures Block(c, m, p, spare, out, steps) == AfterSymbol(c, m, q, spare, out, steps, l)
  {
    hide *;
    ReadTokenOfLength(c, m, p, l, q);
    var r := ReadToken(c, m, p);
    Turn(c, m, p, spare, out, steps, r);
    AfterSymbolIs(c, m, q, spare, out, steps, l);
    var x, length := LengthExtra()[l], LengthBase()[l] + Window(m, q, LengthExtra()[l]);
    var reserved := OffTable(l, Window(m, q, LengthExtra()[l]));
    AfterLengthIs(c, m, q + x, spare, out, steps, length, reserved, r);
    DistanceKeepsLength(c, m, q + x, length, reserved);
  }

  lemma DistanceKeepsLength(c: Codes, m: Memory, p: nat, length: nat, reserved: bool)
    requires ValidCodes(c)
    ensures ReadDistance(c, m, p, length, reserved).token.Copy? ==>
      ReadDistance(c, m, p, length, reserved).token.length == length
  {
    hide Decoded, DistBase, DistExtra, Window;
  }

  /** The rest of the turn, from the extra bits of length symbol `257 + l` on. */
  ghost function AfterSymbol(c: Codes, m: Memory, q: nat, spare: Memory, out: seq<Byte>, steps: nat, l: nat): Outcome
    requires ValidCodes(c) && steps > 0 && l <= 30
  {
    AfterLength(c, m, q + LengthExtra()[l], spare, out, steps,
                LengthBase()[l] + Window(m, q, LengthExtra()[l]),
                OffTable(l, Window(m, q, LengthExtra()[l])))
  }

  lemma AfterSymbolIs(c: Codes, m: Memory, q: nat, spare: Memory, out: seq<Byte>, steps: nat, l: nat)
    requires ValidCodes(c) && steps > 0 && l <= 30
    ensures AfterSymbol(c, m, q, spare, out, steps, l)
         == AfterLength(c, m, q + LengthExtra()[l], spare, out, steps,
                        LengthBase()[l] + Window(m, q, LengthExtra()[l]),
                        OffTable(l, Window(m, q, LengthExtra()[l])))
  {
    hide AfterLength, LengthExtra, LengthBase, Window;
  }

  /** The rest of the turn, from the distance symbol on. */
  ghost function AfterLength(c: Codes, m: Memory, p: nat, spare: Memory, out: seq<Byte>, steps: nat,
                             length: nat, reserved: bool): Outcome
    requires ValidCodes(c) && steps > 0
  {
    var r := ReadDistance(c, m, p, length, reserved);
    if !r.token.Copy? || |out| < r.token.distance then Failed
    else Block(c, m, r.next, spare, CopyBytes(out, spare, length, r.token.distance), steps - 1)
  }

  lemma AfterLengthIs(c: Codes, m: Memory, p: nat, spare: Memory, out: seq<Byte>, steps: nat,
                      length: nat, reserved: bool, r: Reading)
    requires ValidCodes(c) && steps > 0 && r == ReadDistance(c, m, p, length, reserved)
    ensures r.token.NoCode? ==> AfterLength(c, m, p, spare, out, steps, length, reserved) == Failed
    ensures r.token.Copy? && |out| < r.token.distance ==>
      AfterLength(c, m, p, spare, out, steps, length, reserved) == Failed
    ensures r.token.Copy? && |out| >= r.token.distance ==>
      AfterLength(c, m, p, spare, out, steps, length, reserved)
      == Block(c, m, r.next, spare, CopyBytes(out, spare, length, r.token.distance), steps - 1)
  {
    hide Block, ReadDistance, CopyBytes;
  }

  lemma NotFinished(c: Codes, m: Memory, p: nat, spare: Memory, out: seq<Byte>, steps: nat)
    requires ValidCodes(c) && !Block(c, m, p, spare, out, steps).Running?
    ensures steps > 0
  {
  }

  lemma TurnOnDistance(c: Codes, m: Memory, p: nat, length: nat, reserved: bool, d: int, q: nat)
    requires ValidCodes(c) && d == Decoded(c.distance, m, p) && q == p + Taken(c.distance, d)
    ensures d < 0 ==> ReadDistance(c, m, p, length, reserved).token == NoCode
    ensures d >= 0 ==>
      ReadDistance(c, m, p, length, reserved).token == Copy(length, DistBase()[d] + Window(m, q, DistExtra()[d]))
    ensures d >= 0 ==> ReadDistance(c, m, p, length, reserved).next == q + DistExtra()[d]
  {
    hide DistExtra, DistBase, Decoded, Window;
  }

  class Inflater {
    const input: BitReader
    const z_length: Huffman
    const z_distance: Huffman
    // The bytes between zout_start and zout.
    var out: seq<Byte>
    // What memory held behind zout before anything was written there.
    const spare: Memory

    constructor (memory: Memory, zbuffer: nat, spare: Memory)
      ensures input.Valid() && input.memory == memory && input.Position() == 8 * zbuffer && out == []
      ensures Tables() && this.spare == spare
      ensures fresh(input) && fresh(z_length.Arrays() + z_distance.Arrays())
    {
      input := new BitReader(memory, zbuffer);
      z_length := new Huffman();
      z_distance := new Huffman();
      out, this.spare := [], spare;
    }

    /** The two decoding tables share nothing. */
    ghost predicate Tables() {
      z_length.Shape() && z_distance.Shape() && z_length.Arrays() !! z_distance.Arrays()
    }

    /** The copying loops, with the shortcut for a distance of one. */
    method CopyOut(zout: seq<Byte>, len: nat, dist: nat) returns (r: seq<Byte>)
      requires dist <= |zout|
      ensures r == CopyBytes(zout, spare, len, dist)
    {
      r := zout;
      var left := len;
      if dist == 1 {
        var v := ByteAt(r, spare, |r| - dist);
        while left > 0
          invariant |r| >= |zout| >= 1 && r[|r| - 1] == v
          invariant CopyBytes(r, spare, left, dist) == CopyBytes(zout, spare, len, dist)
        {
          r := r + [v];
          left := left - 1;
        }
      } else {
        var p := |r| - dist;
        while left > 0
          invariant p == |r| - dist >= 0
          invariant CopyBytes(r, spare, left, dist) == CopyBytes(zout, spare, len, dist)
        {
          r := r + [ByteAt(r, spare, p)];
          p := p + 1;
          left := left - 1;
        }
      }
    }

    /** An addend with `n` extra bits from the stream. */
    method AddExtra(base: nat, n: nat) returns (r: nat)
      requires input.Valid() && n <= 13
      modifies input
      ensures input.Valid() && input.Position() == old(input.Position()) + n
      ensures r == base + Window(input.memory, old(input.Position()), n)
    {
      r := base;
      if n != 0 {
        var k := input.Receive(n);
        r := r + k;
      }
    }

    /** The distance of a copy. */
    method ReadCopyDistance(ghost c: Codes, ghost length: nat, ghost reserved: bool) returns (ok: bool, dist: nat)
      requires input.Valid() && z_distance.Describes(c.distance) && ValidCodes(c)
      modifies input
      ensures input.Valid()
      ensures ok <==> !ReadDistance(c, input.memory, old(input.Position()), length, reserved).token.NoCode?
      ensures ok ==> ReadDistance(c, input.memory, old(input.Position()), length, reserved).token == Copy(length, dist)
      ensures ok ==> ReadDistance(c, input.memory, old(input.Position()), length, reserved).next == input.Position()
    {
      hide *;
      CodesHaveRoom(c);
      ghost var p: nat := input.Position();
      var z := Decode(input, z_distance, c.distance);
      TurnOnDistance(c, input.memory, p, length, reserved, z, input.Position());
      if z < 0 {
        return false, 0;
      }
      dist := AddExtra(DistBase()[z], DistExtra()[z]);
      ok := true;
    }

    static lemma CodesHaveRoom(c: Codes)
      requires ValidCodes(c)
      ensures |c.distance| <= 32 && |c.literal| <= 288
    {
    }

    /** A turn of the parser from a length symbol on. */
    method ParseCopy(ghost c: Codes, l: nat, zout: seq<Byte>, ghost steps: nat) returns (ok: bool, r: seq<Byte>)
      requires input.Valid() && z_distance.Describes(c.distance) && ValidCodes(c) && l <= 30 && steps > 0
      modifies input
      ensures input.Valid()
      ensures !ok ==> AfterSymbol(c, input.memory, old(input.Position()), spare, zout, steps, l) == Failed
      ensures ok ==>
        AfterSymbol(c, input.memory, old(input.Position()), spare, zout, steps, l)
        == Block(c, input.memory, input.Position(), spare, r, steps - 1)
    {
      hide *;
      z_length.ArraysListed();
      z_distance.ArraysListed();
      ghost var m, p: nat := input.memory, input.Position();
      AfterSymbolIs(c, m, p, spare, zout, steps, l);
      var len := AddExtra(LengthBase()[l], LengthExtra()[l]);
      ghost var q := p + LengthExtra()[l];
      ghost var reserved := OffTable(l, Window(m, p, LengthExtra()[l]));
      AfterLengthIs(c, m, q, spare, zout, steps, len, reserved, ReadDistance(c, m, q, len, reserved));
      var dist;
      ok, dist := ReadCopyDistance(c, len, reserved);
      if !ok || |zout| < dist {
        return false, zout;
      }
      r := CopyOut(zout, len, dist);
    }

    /**
     * `_ssfn__parse_huffman_block` appends what the block stands for and leaves the stream behind its last bit, and it
     * fails when some symbol has no code or some distance goes too far back.
     */
    method ParseHuffmanBlock(ghost c: Codes, ghost steps: nat) returns (ok: bool)
      requires input.Valid() && z_length.Describes(c.literal) && z_distance.Describes(c.distance) && ValidCodes(c)
      requires !Block(c, input.memory, input.Position(), spare, out, steps).Running?
      modifies this`out, input
      ensures input.Valid()
      ensures ok <==> Block(c, input.memory, old(input.Position()), spare, old(out), steps).Done?
      ensures ok ==>
        Block(c, input.memory, old(input.Position()), spare, old(out), steps) == Done(out, input.Position())
    {
      hide *;
      z_length.ArraysListed();
      z_distance.ArraysListed();
      CodesHaveRoom(c);
      ghost var m, left := input.memory, steps;
      ghost var whole := Block(c, m, input.Position(), spare, out, steps);
      var zout := out;
      while true
        invariant input.Valid() && z_length.Describes(c.literal) && z_distance.Describes(c.distance)
        invariant out == old(out) && Block(c, m, input.Position(), spare, zout, left) == whole
        decreases left
      {
        ghost var p: nat := input.Position();
        var z := Decode(input, z_length, c.literal);
        NotFinished(c, m, p, spare, zout, left);
        if z <= 256 {
          TurnOnSymbol(c, m, p, spare, zout, left, z, input.Position());
          if z < 0 {
            return false;
          }
          if z == 256 {
            out := zout;
            return true;
          }
          var b: Byte := z;
          zout := zout + [b];
        } else {
          z := z - 257;
          TurnOnLength(c, m, p, spare, zout, left, z, input.Position());
          ok, zout := ParseCopy(c, z, zout, left);
          if !ok {
            return false;
          }
        }
        left := left - 1;
      }
    }

    /** The lengths of the code for code lengths. */
    method ReadSizes(hclen: nat) returns (sizes: array<nat>)
      requires input.Valid() && hclen <= 19
      modifies input
      ensures fresh(sizes) && sizes.Length == 19
      ensures input.Valid() && input.Position() == old(input.Position()) + 3 * hclen
      ensures sizes[..] == CodeLengthSizes(input.memory, old(input.Position()), hclen)
    {
      hide *;
      ghost var m, p: nat := input.memory, input.Position();
      sizes := new nat[19](i => 0);
      NoSizes(m, p, sizes[..]);
      for i := 0 to hclen
        invariant input.Valid() && input.Position() == p + 3 * i
        invariant sizes[..] == CodeLengthSizes(m, p, i)
      {
        SizesNext(m, p, i);
        ghost var before := sizes[..];
        var s := input.Receive(3);
        sizes[Dezigzag()[i]] := s;
        assert sizes[..] == before[Dezigzag()[i] := s];
      }
    }

    static lemma NoSizes(m: Memory, p: nat, sizes: seq<nat>)
      requires |sizes| == 19 && forall i | 0 <= i < 19 :: sizes[i] == 0
      ensures sizes == CodeLengthSizes(m, p, 0)
    {
    }

    static lemma SizesNext(m: Memory, p: nat, i: nat)
      requires i < 19
      ensures CodeLengthSizes(m, p, i + 1)
           == CodeLengthSizes(m, p, i)[Dezigzag()[i] := Window(m, p + 3 * i, 3)]
    {
      hide Dezigzag, Window;
    }

    /** The repeat count and the value of a run, or nothing to repeat. */
    method ReadRun(c: nat, last: nat, empty: bool) returns (ok: bool, fill: nat, times: nat)
      requires input.Valid() && 16 <= c <= 18
      modifies input
      ensures input.Valid()
      ensures times == Window(input.memory, old(input.Position()), RunBits(c)) + (if c == 18 then 11 else 3)
      ensures input.Position() == old(input.Position()) + RunBits(c)
      ensures (ok <==> !(c == 16 && empty)) && fill == if c == 16 then last else 0
    {
      fill := 0;
      ok := true;
      if c == 16 {
        times := input.Receive(2);
        times := times + 3;
        fill := last;
        ok := !empty;
      } else if c == 17 {
        times := input.Receive(3);
        times := times + 3;
      } else {
        times := input.Receive(7);
        times := times + 11;
      }
    }

    static function RunBits(c: nat): nat {
      if c == 16 then 2 else if c == 17 then 3 else 7
    }

    /** `memset` on the code lengths. */
    static method SetRun(lencodes: array<nat>, n: nat, fill: nat, times: nat)
      requires n + times <= lencodes.Length
      modifies lencodes
      ensures lencodes[..n + times] == old(lencodes[..n]) + Copies(fill, times)
    {
      for i := 0 to times
        invariant forall k | 0 <= k < n :: lencodes[k] == old(lencodes[k])
        invariant forall k | n <= k < n + i :: lencodes[k] == fill
      {
        lencodes[n + i] := fill;
      }
      assert lencodes[..n] == old(lencodes[..n]);
      assert lencodes[n..n + times] == Copies(fill, times);
      assert lencodes[..n + times] == lencodes[..n] + lencodes[n..n + times];
    }

    /** One turn of the loop of `_ssfn__compute_huffman_codes`. */
    method ReadOne(z: Huffman, ghost lens: seq<nat>, lencodes: array<nat>, n: nat, ntot: nat) returns (ok: bool, k: nat)
      requires input.Valid() && z.Describes(lens) && |lens| == 19 && n < ntot <= lencodes.Length
      modifies input, lencodes
      ensures input.Valid()
      ensures ok <==> Enterable(ReadItem(lens, input.memory, old(input.Position())).item, old(lencodes[..n]), ntot)
      ensures ok ==> n < k <= ntot && input.Position() == ReadItem(lens, input.memory, old(input.Position())).next
      ensures ok ==>
        lencodes[..k] == Enter(ReadItem(lens, input.memory, old(input.Position())).item, old(lencodes[..n]))
    {
      hide *;
      k := n;
      ghost var m, p: nat, acc := input.memory, input.Position(), lencodes[..n];
      var c := Decode(input, z, lens);
      if c < 0 || c >= 19 {
        NoItemRead(lens, m, p, acc, ntot);
        return false, n;
      }
      ItemOf(lens, m, p, c);
      if c < 16 {
        EnterOne(c, acc, ntot);
        lencodes[n] := c;
        assert lencodes[..n + 1] == acc + [c];
        return true, n + 1;
      }
      ItemIsRun(lens, m, p, c);
      ok, k := EnterRun(c, lencodes, n, ntot, ReadItem(lens, m, p));
    }

    static lemma ItemIsRun(lens: seq<nat>, m: Memory, p: nat, c: nat)
      requires |lens| == 19 && Decoded(lens, m, p) == c && 16 <= c <= 18
      ensures ReadItem(lens, m, p)
           == ItemReading(RunItem(c, Window(m, p + Taken(lens, c), RunBits(c))), p + Taken(lens, c) + RunBits(c))
    {
      ItemOf(lens, m, p, c);
      hide ReadItem, Decoded, Window;
    }

    static lemma NoItemRead(lens: seq<nat>, m: Memory, p: nat, acc: seq<nat>, ntot: nat)
      requires |lens| == 19 && Decoded(lens, m, p) < 0
      ensures !Enterable(ReadItem(lens, m, p).item, acc, ntot)
    {
      hide Decoded, Window;
    }

    static lemma EnterOne(c: nat, acc: seq<nat>, ntot: nat)
      ensures Enterable(One(c), acc, ntot) && Enter(One(c), acc) == acc + [c]
    {
    }

    /** The branch of that turn that enters a run. */
    method EnterRun(c: nat, lencodes: array<nat>, n: nat, ntot: nat, ghost r: ItemReading) returns (ok: bool, k: nat)
      requires input.Valid() && 16 <= c <= 18 && n < ntot <= lencodes.Length
      requires r.next == input.Position() + RunBits(c)
      requires r.item == RunItem(c, Window(input.memory, input.Position(), RunBits(c)))
      modifies input, lencodes
      ensures input.Valid()
      ensures ok <==> Enterable(r.item, old(lencodes[..n]), ntot)
      ensures ok ==> n < k <= ntot && input.Position() == r.next && lencodes[..k] == Enter(r.item, old(lencodes[..n]))
    {
      hide *;
      k := n;
      ghost var acc := lencodes[..n];
      var fill, times;
      ok, fill, times := ReadRun(c, if n > 0 then lencodes[n - 1] else 0, n == 0);
      RunFacts(c, Window(input.memory, old(input.Position()), RunBits(c)), acc, ntot);
      if !ok || ntot - n < times {
        return false, n;
      }
      SetRun(lencodes, n, fill, times);
      return true, n + times;
    }

    static function RunItem(c: nat, x: nat): Item {
      if c == 16 then Again(x + 3) else if c == 17 then Zeros(x + 3) else Zeros(x + 11)
    }

    static lemma RunFacts(c: nat, x: nat, acc: seq<nat>, ntot: nat)
      requires 16 <= c <= 18
      ensures var times := x + (if c == 18 then 11 else 3);
        Enterable(RunItem(c, x), acc, ntot) <==> !(c == 16 && acc == []) && |acc| + times <= ntot
      ensures !(c == 16 && acc == []) ==>
        Enter(RunItem(c, x), acc)
        == acc + Copies(if c == 16 then acc[|acc| - 1] else 0, x + (if c == 18 then 11 else 3))
    {
    }

    /** The loop of `_ssfn__compute_huffman_codes`. */
    method ReadCodeLengths(z: Huffman, ghost lens: seq<nat>, lencodes: array<nat>, ntot: nat) returns (ok: bool)
      requires input.Valid() && z.Describes(lens) && |lens| == 19 && lencodes !in z.Arrays()
      requires ntot <= lencodes.Length
      modifies input, lencodes
      ensures input.Valid()
      ensures ok <==> ReadLengths(lens, input.memory, old(input.Position()), [], ntot).Lengths?
      ensures ok ==>
        ReadLengths(lens, input.memory, old(input.Position()), [], ntot) == Lengths(lencodes[..ntot], input.Position())
    {
      assert lencodes !in {z.fast, z.firstcode, z.maxcode, z.firstsymbol, z.size, z.value};
      hide *;
      ghost var m, whole := input.memory, ReadLengths(lens, input.memory, input.Position(), [], ntot);
      var n := 0;
      assert lencodes[..n] == [];
      while n < ntot
        invariant input.Valid() && z.Describes(lens) && n <= ntot
        invariant ReadLengths(lens, m, input.Position(), lencodes[..n], ntot) == whole
      {
        LengthsTurn(lens, m, input.Position(), lencodes[..n], ntot);
        var k;
        ok, k := ReadOne(z, lens, lencodes, n, ntot);
        if !ok {
          return;
        }
        n := k;
      }
      LengthsDone(lens, m, input.Position(), lencodes[..n], ntot);
      return n == ntot;
    }

    static lemma LengthsTurn(lens: seq<nat>, m: Memory, p: nat, acc: seq<nat>, total: nat)
      requires |lens| == 19 && |acc| < total
      ensures !Enterable(ReadItem(lens, m, p).item, acc, total) ==> ReadLengths(lens, m, p, acc, total) == NoLengths
      ensures Enterable(ReadItem(lens, m, p).item, acc, total) ==>
        ReadLengths(lens, m, p, acc, total)
        == ReadLengths(lens, m, ReadItem(lens, m, p).next, Enter(ReadItem(lens, m, p).item, acc), total)
    {
      hide ReadItem, Enter;
    }

    static lemma LengthsDone(lens: seq<nat>, m: Memory, p: nat, acc: seq<nat>, total: nat)
      requires |lens| == 19 && |acc| == total
      ensures ReadLengths(lens, m, p, acc, total) == Lengths(acc, p)
    {
    }

    /**
     * `_ssfn__compute_huffman_codes` succeeds exactly on well-formed headers, and then both tables are those of the
     * codes that the header gives.
     */
    method ComputeHuffmanCodes() returns (ok: bool, ghost c: Codes)
      requires input.Valid() && Tables()
      modifies input, z_length.Arrays(), z_distance.Arrays()
      ensures input.Valid()
      ensures ok <==> ReadHeader(input.memory, old(input.Position())).Header?
      ensures ok ==> ReadHeader(input.memory, old(input.Position())) == Header(c, input.Position()) && ValidCodes(c)
      ensures ok ==> z_length.Describes(c.literal) && z_distance.Describes(c.distance)
    {
      hide *;
      c := Codes([], []);
      ghost var m, p: nat := input.memory, input.Position();
      WindowsAreSmall(m, p);
      WindowsAreSmall(m, p + 5);
      WindowsAreSmall(m, p + 10);
      var hlit := input.Receive(5);
      hlit := hlit + 257;
      var hdist := input.Receive(5);
      hdist := hdist + 1;
      var hclen := input.Receive(4);
      hclen := hclen + 4;
      HeaderIs(m, p, hlit, hdist, hclen);
      LengthsAtIs(m, p + 14, hclen, hlit + hdist);
      var lencodes;
      ok, lencodes := ReadAllLengths(hclen, hlit + hdist);
      SplitIs(LengthsAt(m, p + 14, hclen, hlit + hdist), hlit);
      TablesApart();
      if ok {
        var lens := lencodes[..hlit + hdist];
        ok := BuildTables(lens, hlit);
        c := Codes(lens[..hlit], lens[hlit..]);
      }
    }

    /** The code for code lengths, and the lengths written in it. */
    method ReadAllLengths(hclen: nat, ntot: nat) returns (ok: bool, lencodes: array<nat>)
      requires input.Valid() && hclen <= 19 && ntot <= 320
      modifies input
      ensures input.Valid() && fresh(lencodes) && lencodes.Length == 455
      ensures ok <==> LengthsAt(input.memory, old(input.Position()), hclen, ntot).Lengths?
      ensures ok ==>
        LengthsAt(input.memory, old(input.Position()), hclen, ntot) == Lengths(lencodes[..ntot], input.Position())
    {
      hide *;
      ghost var m, p: nat := input.memory, input.Position();
      lencodes := new nat[455];
      var sizes := ReadSizes(hclen);
      LengthsAtIs(m, p, hclen, ntot);
      var z_codelength := new Huffman();
      z_codelength.ArraysListed();
      ok := z_codelength.Build(sizes[..]);
      if ok {
        ok := ReadCodeLengths(z_codelength, sizes[..], lencodes, ntot);
      }
    }

    lemma TablesApart()
      requires Tables()
      ensures z_length.Shape() && z_distance.Shape() && z_length.Arrays() !! z_distance.Arrays()
      ensures input !in z_length.Arrays() && input !in z_distance.Arrays()
    {
      hide Huffman.Shape;
    }

    static lemma LengthsValid(lens: seq<nat>, hlit: nat)
      requires hlit <= 288 && hlit <= |lens| <= hlit + 32 && forall i | 0 <= i < |lens| :: lens[i] <= 15
      ensures ValidLengths(lens[..hlit]) && ValidLengths(lens[hlit..])
    {
    }

    /** The two tables from one list of lengths. */
    method BuildTables(lens: seq<nat>, hlit: nat) returns (ok: bool)
      requires Tables() && hlit <= 288 && hlit <= |lens| <= hlit + 32 && forall i | 0 <= i < |lens| :: lens[i] <= 15
      modifies z_length.Arrays(), z_distance.Arrays()
      ensures ok <==> Kraft(lens[..hlit]) <= Pow2(15) && Kraft(lens[hlit..]) <= Pow2(15)
      ensures ok ==> z_length.Describes(lens[..hlit]) && z_distance.Describes(lens[hlit..])
    {
      hide *;
      TablesApart();
      z_length.ArraysListed();
      z_distance.ArraysListed();
      LengthsValid(lens, hlit);
      ok := z_length.Build(lens[..hlit]);
      if ok {
        ok := z_distance.Build(lens[hlit..]);
      }
    }

    /** The tables of a block with fixed codes; `_ssfn__init_zdefaults` fills the lists of lengths. */
    method BuildFixed() returns (ok: bool)
      requires Tables()
      modifies z_length.Arrays(), z_distance.Arrays()
      ensures ok && z_length.Describes(FixedCodes().literal) && z_distance.Describes(FixedCodes().distance)
    {
      hide *;
      TablesApart();
      z_length.ArraysListed();
      z_distance.ArraysListed();
      FixedCodesValid();
      CodesAreValid(FixedCodes());
      var zdefault_length, zdefault_distance := new nat[288], new nat[32];
      InitDefaults(zdefault_length, zdefault_distance);
      ok := z_length.Build(zdefault_length[..]);
      if ok {
        ok := z_distance.Build(zdefault_distance[..]);
      }
    }

    static method InitDefaults(zdefault_length: array<nat>, zdefault_distance: array<nat>)
      requires zdefault_length.Length == 288 && zdefault_distance.Length == 32 && zdefault_length != zdefault_distance
      modifies zdefault_length, zdefault_distance
      ensures zdefault_length[..] == FixedCodes().literal && zdefault_distance[..] == FixedCodes().distance
    {
      SetRun(zdefault_length, 0, 8, 144);
      SetRun(zdefault_length, 144, 9, 112);
      SetRun(zdefault_length, 256, 7, 24);
      SetRun(zdefault_length, 280, 8, 8);
      SetRun(zdefault_distance, 0, 5, 32);
    }
  }
}
