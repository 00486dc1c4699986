/**
 * POLYVAL (section 3 of RFC 8452) as the three routines of the hashing core
 * compute it: the sequential Horner fold, the table of key powers, and the
 * batched fold that multiplies up to eight blocks by precomputed powers and
 * reduces once per group.
 *
 * The reference is the Horner fold over the input cut into 16-byte blocks,
 * the last one padded with zeros.  The batched fold is proved equal to it
 * whenever the table holds the powers H^1, H^2, ... of the key.
 */
module Polyval {
  import opened Blocks
  import opened Field

  // ---------------------------------------------------------------------
  // The reference: Horner's rule over zero-padded blocks
  // ---------------------------------------------------------------------

  /** The input cut into 16-byte blocks, the last one padded with zeros. */
  function Chunks(input: seq<Byte>): (r: seq<Block>)
    ensures |r| == (|input| + 15) / 16
    decreases |input|
  {
    if |input| == 0 then []
    else if |input| < 16 then [Load16(Pad16(input))]
    else [Load16(input[..16])] + Chunks(input[16..])
  }

  /** The sequential fold t := (t xor d) * H, block by block in input order. */
  ghost function HornerBlocks(t: Block, h: Block, ds: seq<Block>): Block
    decreases |ds|
  {
    if |ds| == 0 then t else HornerBlocks(Mult(XorBlock(t, ds[0]), h), h, ds[1..])
  }

  /** POLYVAL of the input, continued from the state t, with key h. */
  ghost function Horner(t: Block, h: Block, input: seq<Byte>): Block
  {
    HornerBlocks(t, h, Chunks(input))
  }

  /** Blocks are cut independently: a prefix of whole blocks is cut on its own. */
  lemma {:induction false} ChunksAppend(a: seq<Byte>, b: seq<Byte>)
    requires |a| % 16 == 0
    ensures Chunks(a + b) == Chunks(a) + Chunks(b)
    decreases |a|
  {
    if |a| > 0 {
      ChunksAppend(a[16..], b);
      assert (a + b)[..16] == a[..16];
      assert (a + b)[16..] == a[16..] + b;
    } else {
      assert a + b == b;
    }
  }

  lemma {:induction false} HornerBlocksAppend(t: Block, h: Block, xs: seq<Block>, ys: seq<Block>)
    ensures HornerBlocks(t, h, xs + ys) == HornerBlocks(HornerBlocks(t, h, xs), h, ys)
    decreases |xs|
  {
    if |xs| == 0 {
      assert xs + ys == ys;
    } else {
      assert (xs + ys)[1..] == xs[1..] + ys;
      HornerBlocksAppend(Mult(XorBlock(t, xs[0]), h), h, xs[1..], ys);
    }
  }

  /**
   * Chunk independence: folding a + b, where a is a whole number of blocks,
   * is folding a and then folding b from the state reached.
   */
  lemma HornerConcat(t: Block, h: Block, a: seq<Byte>, b: seq<Byte>)
    requires |a| % 16 == 0
    ensures Horner(t, h, a + b) == Horner(Horner(t, h, a), h, b)
  {
    ChunksAppend(a, b);
    HornerBlocksAppend(t, h, Chunks(a), Chunks(b));
  }

  /** A single short or full block is cut into one padded block. */
  lemma ChunksOne(d: seq<Byte>)
    requires 0 < |d| <= 16
    ensures Chunks(d) == [Load16(Pad16(d))]
  {
    if |d| == 16 {
      var p := Pad16(d);
      assert p == p[..16] == d;
      assert d[..16] == d;
      assert d[16..] == [];
    }
  }

  /** Folding one block, padded with zeros when it is short. */
  lemma HornerOne(x: Block, h: Block, d: seq<Byte>)
    requires 0 < |d| <= 16
    ensures Horner(x, h, d) == Mult(XorBlock(x, Load16(Pad16(d))), h)
  {
    var b := Load16(Pad16(d));
    ChunksOne(d);
    assert [b][1..] == [];
    assert HornerBlocks(Mult(XorBlock(x, b), h), h, []) == Mult(XorBlock(x, b), h);
  }

  /** One more block: fold the prefix, add the block, multiply by the key. */
  lemma HornerStep(t: Block, h: Block, a: seq<Byte>, d: seq<Byte>)
    requires |a| % 16 == 0 && 0 < |d| <= 16
    ensures Horner(t, h, a + d) == Mult(XorBlock(Horner(t, h, a), Load16(Pad16(d))), h)
  {
    HornerConcat(t, h, a, d);
    HornerOne(Horner(t, h, a), h, d);
  }



  /** Block i of the input, folded after blocks 0 .. i-1. */
  lemma HornerBlockAt(t: Block, h: Block, input: seq<Byte>, i: nat)
    requires 16 * i + 16 <= |input|
    ensures Horner(t, h, input[..16 * i + 16]) ==
      Mult(XorBlock(Horner(t, h, input[..16 * i]), Load16(input[16 * i..16 * i + 16])), h)
  {
    var a, d := input[..16 * i], input[16 * i..16 * i + 16];
    assert a + d == input[..16 * i + 16];
    HornerStep(t, h, a, d);
    PadFull(d);
  }

  /** The trailing partial block, zero-padded, is folded after the whole blocks. */
  lemma HornerTail(t: Block, h: Block, input: seq<Byte>)
    requires |input| % 16 != 0
    ensures Horner(t, h, input) ==
      Mult(XorBlock(Horner(t, h, input[..16 * (|input| / 16)]),
                   Load16(Pad16(input[|input| - |input| % 16..]))), h)
  {
    var k := 16 * (|input| / 16);
    assert k == |input| - |input| % 16;
    assert input[..k] + input[k..] == input;
    HornerStep(t, h, input[..k], input[k..]);
  }

  // ---------------------------------------------------------------------
  // Key powers and the batched sum
  // ---------------------------------------------------------------------

  /** H^n in the field: H multiplied by itself n - 1 times. */
  ghost function Power(h: Block, n: nat): Block
    requires n >= 1
  {
    if n == 1 then h else Mult(Power(h, n - 1), h)
  }

  /** Entry i holds H^(i+1), H being entry 0. */
  ghost predicate IsPowersTable(htbl: seq<Block>)
  {
    |htbl| >= 1 && forall i :: 0 <= i < |htbl| ==> htbl[i] == Power(htbl[0], i + 1)
  }

  /** Each entry is the previous one times the key, the first being the key. */
  ghost predicate IsKeyChain(s: seq<Block>, h: Block)
  {
    |s| >= 1 && s[0] == h && forall j :: 1 <= j < |s| ==> s[j] == Mult(s[j - 1], h)
  }

  /** A table of powers is a chain of products by its first entry. */
  lemma PowersTableIsKeyChain(hs: seq<Block>)
    requires IsPowersTable(hs)
    ensures IsKeyChain(hs, hs[0])
  {
    forall j | 1 <= j < |hs|
      ensures hs[j] == Mult(hs[j - 1], hs[0])
    {
      assert hs[j] == Power(hs[0], j + 1) && hs[j - 1] == Power(hs[0], j);
    }
  }

  /**
   * The group products of the batched fold: the last block times hs[0], the
   * one before it times hs[1], and so on back to the first block.
   */
  ghost function DotSum(ds: seq<Block>, hs: seq<Block>): Block
    requires |ds| <= |hs|
    decreases |ds|
  {
    if |ds| == 0 then Zero
    else XorBlock(DotSum(ds[..|ds| - 1], hs[1..]), Mult(ds[|ds| - 1], hs[0]))
  }

  /** A group of one block is one product. */
  lemma DotSumOne(d: Block, hs: seq<Block>)
    requires 1 <= |hs|
    ensures DotSum([d], hs) == Mult(d, hs[0])
  {
    assert [d][..0] == [];
    XorBlockComm(Zero, Mult(d, hs[0]));
    XorBlockZero(Mult(d, hs[0]));
  }

  /** The group's blocks with the running state added into the first. */
  function FirstXor(t: Block, ds: seq<Block>): (r: seq<Block>)
    requires |ds| >= 1
    ensures |r| == |ds| && r[1..] == ds[1..] && r[0] == XorBlock(t, ds[0])
  {
    ds[0 := XorBlock(t, ds[0])]
  }

  /** Adding a block in front: it is paired with the next power up. */
  lemma {:induction false} DotSumCons(d: Block, s: seq<Block>, hs: seq<Block>)
    requires |s| + 1 <= |hs|
    ensures DotSum([d] + s, hs) == XorBlock(DotSum(s, hs), Mult(d, hs[|s|]))
    decreases |s|
  {
    if |s| == 0 {
      assert ([d] + s)[..0] == [];
      XorBlockComm(Zero, Mult(d, hs[0]));
      XorBlockZero(Mult(d, hs[0]));
    } else {
      var n := |s|;
      assert ([d] + s)[..n] == [d] + s[..n - 1];
      DotSumCons(d, s[..n - 1], hs[1..]);
      var a, b, c := DotSum(s[..n - 1], hs[1..]), Mult(d, hs[n]), Mult(s[n - 1], hs[0]);
      XorBlockAssoc(a, b, c);
      XorBlockComm(b, c);
      XorBlockAssoc(a, c, b);
    }
  }

  /** Multiplying the group sum by h moves every block to the next power. */
  lemma {:induction false} DotSumScale(ds: seq<Block>, hs: seq<Block>, gs: seq<Block>, h: Block)
    requires |ds| <= |hs| && |ds| <= |gs|
    requires forall i :: 0 <= i < |ds| ==> gs[i] == Mult(hs[i], h)
    ensures Mult(DotSum(ds, hs), h) == DotSum(ds, gs)
    decreases |ds|
  {
    if |ds| == 0 {
      MultZero(h);
    } else {
      var n := |ds|;
      DotSumScale(ds[..n - 1], hs[1..], gs[1..], h);
      MultDistLeft(DotSum(ds[..n - 1], hs[1..]), Mult(ds[n - 1], hs[0]), h);
      MultAssoc(ds[n - 1], hs[0], h);
    }
  }

  /**
   * The batched fold agrees with Horner: with hs the powers H, H^2, ..., the
   * group sum of the blocks, the state added into the first, is the Horner
   * fold of the blocks from that state.
   */
  lemma {:induction false} GroupIsHorner(t: Block, h: Block, ds: seq<Block>, hs: seq<Block>)
    requires 1 <= |ds| <= |hs| && IsKeyChain(hs, h)
    ensures DotSum(FirstXor(t, ds), hs) == HornerBlocks(t, h, ds)
    decreases |ds|
  {
    var n := |ds|;
    var fs := FirstXor(t, ds);
    if n == 1 {
      assert fs == [fs[0]] && ds[1..] == [];
      DotSumOne(fs[0], hs);
    } else {
      var front, last := ds[..n - 1], ds[n - 1];
      assert ds == front + [last];
      assert fs[..n - 1] == FirstXor(t, front);
      forall i | 0 <= i < n - 1
        ensures hs[1..][i] == Mult(hs[i], h)
      {
        assert hs[1..][i] == hs[i + 1];
      }
      GroupIsHorner(t, h, front, hs);
      DotSumScale(fs[..n - 1], hs, hs[1..], h);
      HornerBlocksAppend(t, h, front, [last]);
      MultDistLeft(HornerBlocks(t, h, front), last, h);
    }
  }

  // ---------------------------------------------------------------------
  // PolyvalHorner
  // ---------------------------------------------------------------------

  /**
   * Folds the input into the 16-byte POLYVAL state one block at a time,
   * the trailing 1..15 bytes copied into a zeroed block; nothing is done
   * for an empty input.
   */
  method PolyvalHorner(polyval: array<Byte>, hashKey: seq<Byte>, input: seq<Byte>)
    requires polyval.Length == 16 && |hashKey| == 16
    modifies polyval
    ensures |input| == 0 ==> polyval[..] == old(polyval[..])
    ensures |input| > 0 ==> polyval[..] == Store16(Horner(Load16(old(polyval[..])), Load16(hashKey), input))
  {
    if |input| == 0 {
      return;
    }
    var blocks, remainder := |input| / 16, |input| % 16;
    var t := Load16(polyval[..]);
    var h := Load16(hashKey);
    ghost var t0 := t;
    var i := 0;
    while i < blocks
      invariant 0 <= i <= blocks
      invariant t == Horner(t0, h, input[..16 * i])
    {
      var b := Load16(input[16 * i..16 * i + 16]);
      HornerBlockAt(t0, h, input, i);
      DotIsMult(XorBlock(t, b), h);
      t := Dot(XorBlock(t, b), h);
      i := i + 1;
    }
    if remainder != 0 {
      var b := Pad16(input[|input| - remainder..]);
      HornerTail(t0, h, input);
      DotIsMult(XorBlock(t, Load16(b)), h);
      t := Dot(XorBlock(t, Load16(b)), h);
    } else {
      assert input[..16 * blocks] == input;
    }
    assert t == Horner(t0, h, input);
    Store(polyval, t);
  }

  // ---------------------------------------------------------------------
  // InitPowersTable
  // ---------------------------------------------------------------------

  /** Entry j of a chain of products by the key is the key to the power j + 1. */
  lemma {:induction false} KeyChainEntry(s: seq<Block>, h: Block, j: nat)
    requires IsKeyChain(s, h) && j < |s|
    ensures s[j] == Power(h, j + 1)
    decreases j
  {
    if j > 0 {
      KeyChainEntry(s, h, j - 1);
      assert s[j] == Mult(s[j - 1], h);
    }
  }

  /** A chain of products by the key is a table of the key's powers. */
  lemma KeyChainPowers(s: seq<Block>, h: Block)
    requires IsKeyChain(s, h)
    ensures IsPowersTable(s)
  {
    forall j | 0 <= j < |s|
      ensures s[j] == Power(s[0], j + 1)
    {
      KeyChainEntry(s, h, j);
    }
  }

  /**
   * Writes H, H^2, ..., H^size into the first size slots of the table, H
   * being the hash key, each slot the previous one times H.  Slot 0 is
   * written even when size is below one.
   */
  method InitPowersTable(htbl: array<Block>, size: int, hashKey: seq<Byte>)
    requires 1 <= htbl.Length && size <= htbl.Length && |hashKey| == 16
    modifies htbl
    ensures htbl[0] == Load16(hashKey)
    ensures forall i :: 1 <= i < size ==> htbl[i] == Mult(htbl[i - 1], Load16(hashKey))
    ensures forall i :: 1 <= i < htbl.Length && size <= i ==> htbl[i] == old(htbl[i])
    ensures 1 <= size ==> IsPowersTable(htbl[..size]) && htbl[size - 1] == Power(Load16(hashKey), size)
  {
    var t := Load16(hashKey);
    var h := t;
    htbl[0] := t;
    var i := 1;
    while i < size
      invariant 1 <= i && (i == 1 || i <= size)
      invariant htbl[0] == h && t == htbl[i - 1]
      invariant forall j :: 1 <= j < i ==> htbl[j] == Mult(htbl[j - 1], h)
      invariant forall j :: 1 <= j < htbl.Length && i <= j ==> htbl[j] == old(htbl[j])
    {
      DotIsMult(t, h);
      t := Dot(t, h);
      htbl[i] := t;
      i := i + 1;
    }
    if 1 <= size {
      var p := htbl[..size];
      assert IsKeyChain(p, h) by {
        forall j | 1 <= j < size
          ensures p[j] == Mult(p[j - 1], h)
        {
          assert p[j] == htbl[j] && p[j - 1] == htbl[j - 1];
        }
      }
      KeyChainPowers(p, h);
      KeyChainEntry(p, h, size - 1);
    }
  }

  // ---------------------------------------------------------------------
  // PolyvalPowersTable
  // ---------------------------------------------------------------------

  /**
   * How many table entries the batched fold reads: eight when a whole group
   * of eight blocks is present, the short group's size otherwise, and one
   * for a lone partial block.
   */
  function PowersNeeded(len: nat): (n: nat)
    ensures n <= 8 && (0 < len ==> 1 <= n)
    ensures len / 16 % 8 <= n && (128 <= len ==> n == 8)
  {
    if len == 0 then 0 else if 128 <= len then 8 else if 16 <= len then len / 16 else 1
  }

  /**
   * A length splits into groups of eight blocks, the whole blocks left over
   * (the short group, len % 128 less the partial block) and a partial block;
   * the table covers every group.
   */
  lemma BlockCount(len: nat)
    ensures (len - len % 16 + 15) / 16 == len / 16
    ensures len % 128 - len % 16 == 16 * (len / 16 % 8)
    ensures len / 16 % 8 <= PowersNeeded(len) && (8 <= len / 16 ==> PowersNeeded(len) == 8)
  {
    var q, m := len / 128, len % 128;
    assert len == 128 * q + m;
    var a, b := m / 16, m % 16;
    assert m == 16 * a + b && a < 8;
    assert len == 16 * (8 * q + a) + b;
    assert len / 16 == 8 * q + a && len % 16 == b;
    assert (8 * q + a) % 8 == a;
  }

  /**
   * Whole groups of width blocks, each folded as one batch, in input order:
   * the state is added into a group's first block, block j of the group is
   * multiplied by hs[width - 1 - j], and the products are summed.
   */
  ghost function FullGroups(s: Block, hs: seq<Block>, gs: seq<Block>, width: nat): Block
    requires 1 <= width && |gs| % width == 0 && (0 < |gs| ==> width <= |hs|)
    decreases |gs|
  {
    if |gs| == 0 then s
    else
      GroupDrop(|gs|, width);
      var n := |gs| - width;
      DotSum(FirstXor(FullGroups(s, hs, gs[..n], width), gs[n..]), hs)
  }

  /** Dropping the last group of a whole number of groups leaves whole groups. */
  lemma GroupDrop(len: nat, width: nat)
    requires 1 <= width && len % width == 0 && 0 < len
    ensures width <= len && (len - width) % width == 0
  {
    var q := len / width;
    assert len == width * q;
    assert 1 <= q;
    assert len - width == width * (q - 1);
    MultipleMod(width, q - 1);
  }

  /** A multiple of w has no remainder modulo w. */
  lemma {:induction false} MultipleMod(w: nat, m: nat)
    requires 1 <= w
    ensures (w * m) % w == 0
  {
    if m > 0 {
      MultipleMod(w, m - 1);
      assert w * m == w * (m - 1) + w;
      ModShift(w * (m - 1), w);
    }
  }

  /** Adding the modulus keeps the remainder. */
  lemma ModShift(x: nat, w: nat)
    requires 1 <= w
    ensures (x + w) % w == x % w
  {
    var q, r := x / w, x % w;
    var q2, r2 := (x + w) / w, (x + w) % w;
    assert x == w * q + r;
    assert x + w == w * q2 + r2;
    assert w * (q + 1 - q2) == r2 - r;
    SmallMultiple(w, q + 1 - q2);
  }

  /** The only multiple of w strictly between -w and w is zero. */
  lemma SmallMultiple(w: int, k: int)
    requires 1 <= w && -w < w * k < w
    ensures k == 0
  {
    MulSign(w, k);
  }

  /** A nonzero multiple of w is at least w away from zero. */
  lemma MulSign(w: int, k: int)
    requires 1 <= w
    ensures 1 <= k ==> w <= w * k
    ensures k <= -1 ==> w * k <= -w
  {
    if 1 <= k {
      MulAtLeast(w, k);
    } else if k <= -1 {
      MulAtLeast(w, -k);
      assert w * k == -(w * -k);
    }
  }

  lemma {:induction false} MulAtLeast(w: int, j: int)
    requires 1 <= w && 1 <= j
    ensures w <= w * j
    decreases j
  {
    if j > 1 {
      MulAtLeast(w, j - 1);
      assert w * j == w * (j - 1) + w;
    }
  }

  /** The leading short group of fewer than eight blocks, if any, folded as one batch. */
  ghost function ShortGroup(t: Block, hs: seq<Block>, ds: seq<Block>): Block
    requires |ds| <= |hs|
  {
    if |ds| == 0 then t else DotSum(FirstXor(t, ds), hs)
  }

  /**
   * The whole blocks of the batched fold: the |ds| % 8 leading blocks as the
   * short group, then the groups of eight.
   */
  ghost function WholeBlocks(t: Block, hs: seq<Block>, ds: seq<Block>): Block
    requires |ds| % 8 <= |hs| && (8 <= |ds| ==> 8 <= |hs|)
  {
    var r := |ds| % 8;
    GroupRest(|ds|);
    FullGroups(ShortGroup(t, hs, ds[..r]), hs, ds[r..], 8)
  }

  /** What follows the short group is a whole number of groups of eight. */
  lemma GroupRest(n: nat)
    ensures (n - n % 8) % 8 == 0 && (n % 8 < n ==> 8 <= n)
  {
    var q := n / 8;
    assert n - n % 8 == 8 * q;
  }

  /**
   * What the batched fold computes: the whole blocks, then the zero-padded
   * partial block times H.
   */
  ghost function Batched(t: Block, hs: seq<Block>, input: seq<Byte>): Block
    requires PowersNeeded(|input|) <= |hs|
  {
    var full := |input| - |input| % 16;
    BlockCount(|input|);
    var w := WholeBlocks(t, hs, Chunks(input[..full]));
    if full == |input| then w else Mult(XorBlock(w, Load16(Pad16(input[full..]))), hs[0])
  }

  /** Groups folded as batches agree with Horner over the same blocks. */
  lemma {:induction false} FullGroupsIsHorner(s: Block, hs: seq<Block>, gs: seq<Block>, width: nat)
    requires 1 <= |hs| && IsKeyChain(hs, hs[0])
    requires 1 <= width && |gs| % width == 0 && (0 < |gs| ==> width <= |hs|)
    ensures FullGroups(s, hs, gs, width) == HornerBlocks(s, hs[0], gs)
    decreases |gs|
  {
    if |gs| > 0 {
      GroupDrop(|gs|, width);
      var n := |gs| - width;
      var h := hs[0];
      assert gs == gs[..n] + gs[n..];
      FullGroupsIsHorner(s, hs, gs[..n], width);
      HornerBlocksAppend(s, h, gs[..n], gs[n..]);
      GroupIsHorner(HornerBlocks(s, h, gs[..n]), h, gs[n..], hs);
    }
  }

  /** The short group and the groups of eight together fold the whole blocks. */
  lemma WholeBlocksIsHorner(t: Block, hs: seq<Block>, ds: seq<Block>)
    requires 1 <= |hs| && IsKeyChain(hs, hs[0]) && |ds| % 8 <= |hs| && (8 <= |ds| ==> 8 <= |hs|)
    ensures WholeBlocks(t, hs, ds) == HornerBlocks(t, hs[0], ds)
  {
    var r, h := |ds| % 8, hs[0];
    var a := ds[..r];
    if r == 0 {
      assert HornerBlocks(t, h, a) == t;
    } else {
      GroupIsHorner(t, h, a, hs);
    }
    assert ds == a + ds[r..];
    GroupRest(|ds|);
    HornerBlocksAppend(t, h, a, ds[r..]);
    FullGroupsIsHorner(ShortGroup(t, hs, a), hs, ds[r..], 8);
  }

  /**
   * The batched fold equals the Horner fold whenever the table holds the
   * powers of its first entry.
   */
  lemma BatchedIsHorner(t: Block, hs: seq<Block>, input: seq<Byte>)
    requires IsPowersTable(hs) && PowersNeeded(|input|) <= |hs|
    ensures Batched(t, hs, input) == Horner(t, hs[0], input)
  {
    var h, full := hs[0], |input| - |input| % 16;
    BlockCount(|input|);
    PowersTableIsKeyChain(hs);
    WholeBlocksIsHorner(t, hs, Chunks(input[..full]));
    if full == |input| {
      assert input[..full] == input;
    } else {
      HornerTail(t, h, input);
    }
  }

  /** One more block of a group, taken in input order, pairs with the next power down. */
  lemma DotSumPrefix(fs: seq<Block>, hs: seq<Block>, i: nat, k: nat)
    requires i < k <= |fs| && k <= |hs|
    ensures DotSum(fs[..i + 1], hs[k - i - 1..]) ==
      XorBlock(DotSum(fs[..i], hs[k - i..]), Mult(fs[i], hs[k - i - 1]))
  {
    assert fs[..i + 1][..i] == fs[..i];
    assert hs[k - i - 1..][1..] == hs[k - i..];
  }

  /** The first product of a forward group: the state-added block times the highest power. */
  method ForwardStart(t: Block, ds: seq<Block>, hs: seq<Block>) returns (acc: Acc)
    requires 1 <= |ds| <= |hs|
    ensures Reduce(Combine(acc)) == DotSum(FirstXor(t, ds)[..1], hs[|ds| - 1..])
  {
    var first := XorBlock(t, ds[0]);
    assert FirstXor(t, ds)[..1] == [first];
    DotSumOne(first, hs[|ds| - 1..]);
    DotIsReducedProduct(first, hs[|ds| - 1]);
    DotIsMult(first, hs[|ds| - 1]);
    acc := Product(first, hs[|ds| - 1]);
  }

  /** Absorbing block i of a forward group extends the partial sum by one term. */
  method ForwardStep(acc: Acc, t: Block, ds: seq<Block>, hs: seq<Block>, i: nat) returns (next: Acc)
    requires 1 <= i < |ds| <= |hs|
    requires Reduce(Combine(acc)) == DotSum(FirstXor(t, ds)[..i], hs[|ds| - i..])
    ensures Reduce(Combine(next)) == DotSum(FirstXor(t, ds)[..i + 1], hs[|ds| - i - 1..])
  {
    var fs, k := FirstXor(t, ds), |ds|;
    assert fs[i] == ds[i];
    DotSumPrefix(fs, hs, i, k);
    AbsorbDot(acc, ds[i], hs[k - i - 1]);
    DotIsMult(ds[i], hs[k - i - 1]);
    next := Absorb(acc, ds[i], hs[k - i - 1]);
  }

  /** One more block of a group, taken backwards, pairs with the next power up. */
  lemma DotSumSuffix(ds: seq<Block>, hs: seq<Block>, j: nat)
    requires j < |ds| <= |hs|
    ensures DotSum(ds[j..], hs) == XorBlock(DotSum(ds[j + 1..], hs), Mult(ds[j], hs[|ds| - 1 - j]))
  {
    assert ds[j..] == [ds[j]] + ds[j + 1..];
    DotSumCons(ds[j], ds[j + 1..], hs);
  }

  /** The first product of a backward group: its last block times the lowest power. */
  method BackwardStart(ds: seq<Block>, hs: seq<Block>) returns (acc: Acc)
    requires 1 <= |ds| <= |hs|
    ensures Reduce(Combine(acc)) == DotSum(ds[|ds| - 1..], hs)
  {
    var last := ds[|ds| - 1];
    assert ds[|ds| - 1..] == [last];
    DotSumOne(last, hs);
    DotIsReducedProduct(last, hs[0]);
    DotIsMult(last, hs[0]);
    acc := Product(last, hs[0]);
  }

  /** Absorbing block j of a backward group extends the partial sum by one term. */
  method BackwardStep(acc: Acc, ds: seq<Block>, hs: seq<Block>, j: nat) returns (next: Acc)
    requires j < |ds| <= |hs|
    requires Reduce(Combine(acc)) == DotSum(ds[j + 1..], hs)
    ensures Reduce(Combine(next)) == DotSum(ds[j..], hs)
  {
    DotSumSuffix(ds, hs, j);
    AbsorbDot(acc, ds[j], hs[|ds| - 1 - j]);
    DotIsMult(ds[j], hs[|ds| - 1 - j]);
    next := Absorb(acc, ds[j], hs[|ds| - 1 - j]);
  }

  /** The first block of a group carries the running state. */
  method BackwardLast(acc: Acc, t: Block, ds: seq<Block>, hs: seq<Block>) returns (next: Acc)
    requires 1 <= |ds| <= |hs|
    requires Reduce(Combine(acc)) == DotSum(ds[1..], hs)
    ensures Reduce(Combine(next)) == DotSum(FirstXor(t, ds), hs)
  {
    var first := XorBlock(t, ds[0]);
    assert FirstXor(t, ds) == [first] + ds[1..];
    DotSumCons(first, ds[1..], hs);
    AbsorbDot(acc, first, hs[|ds| - 1]);
    DotIsMult(first, hs[|ds| - 1]);
    next := Absorb(acc, first, hs[|ds| - 1]);
  }

  /**
   * The leading short group of k blocks: block 0 with the state added is
   * multiplied by hs[k-1], then blocks 1 .. k-1 in input order by
   * hs[k-2] .. hs[0], all into one set of accumulators.
   */
  method AccumulateForward(t: Block, hs: seq<Block>, ds: seq<Block>) returns (acc: Acc)
    requires 1 <= |ds| <= |hs|
    ensures Reduce(Combine(acc)) == DotSum(FirstXor(t, ds), hs)
  {
    var k := |ds|;
    ghost var fs := FirstXor(t, ds);
    acc := ForwardStart(t, ds, hs);
    var i := 1;
    while i < k
      invariant 1 <= i <= k
      invariant Reduce(Combine(acc)) == DotSum(fs[..i], hs[k - i..])
    {
      acc := ForwardStep(acc, t, ds, hs, i);
      i := i + 1;
    }
    assert fs[..k] == fs;
  }

  /**
   * One group taken backwards, as the groups of eight (and the six-block
   * groups of decryption) are: the last block times hs[0], the one before
   * it times hs[1], ..., and block 0 with the state added times
   * hs[|ds| - 1].
   */
  method AccumulateBackward(t: Block, hs: seq<Block>, ds: seq<Block>) returns (acc: Acc)
    requires 2 <= |ds| <= |hs|
    ensures Reduce(Combine(acc)) == DotSum(FirstXor(t, ds), hs)
  {
    var k := |ds|;
    acc := BackwardStart(ds, hs);
    var l := 1;
    while l < k - 1
      invariant 1 <= l <= k - 1
      invariant Reduce(Combine(acc)) == DotSum(ds[k - l..], hs)
    {
      acc := BackwardStep(acc, ds, hs, k - 1 - l);
      l := l + 1;
    }
    acc := BackwardLast(acc, t, ds, hs);
  }

  /**
   * The two reduction rounds and the final xor of the high half, in the
   * operand order of the closing reduction.
   */
  method ReduceLate(t: Block, xhi: Block) returns (r: Block)
    ensures r == Reduce(Wide(t, xhi))
  {
    var tmp3 := CarrylessMultiply(t, Poly, 0x10);
    r := SwapHalves(t);
    r := XorBlock(tmp3, r);
    XorBlockComm(tmp3, SwapHalves(t));
    var u := r;
    tmp3 := CarrylessMultiply(r, Poly, 0x10);
    r := SwapHalves(r);
    r := XorBlock(tmp3, r);
    XorBlockComm(tmp3, SwapHalves(u));
    r := XorBlock(xhi, r);
  }

  /**
   * The leading short group: its blocks paired with the powers from
   * hs[|ds| - 1] down to hs[0], the state added into the first, left
   * unreduced in the halves t and xhi.
   */
  method FoldShortGroup(t0: Block, hs: seq<Block>, ds: seq<Block>) returns (t: Block, xhi: Block)
    requires 1 <= |ds| <= |hs|
    ensures Reduce(Wide(t, xhi)) == DotSum(FirstXor(t0, ds), hs)
  {
    var acc := AccumulateForward(t0, hs, ds);
    var w := Combine(acc);
    t, xhi := w.lo, w.hi;
  }

  /**
   * The first group of eight when there is no short group: the loaded state
   * is added into its first block as it is, with nothing to reduce.
   */
  method FoldFirstGroup(t0: Block, hs: seq<Block>, group: seq<Block>) returns (t: Block, xhi: Block)
    requires |group| == 8 && 8 <= |hs|
    ensures Reduce(Wide(t, xhi)) == DotSum(FirstXor(t0, group), hs)
  {
    var acc := AccumulateBackward(t0, hs, group);
    var w := Combine(acc);
    t, xhi := w.lo, w.hi;
  }

  /**
   * A later group of eight: the previous group's halves are reduced (two
   * rounds, then the high half added) and the result is added into the
   * first block of this group.
   */
  method FoldNextGroup(t0: Block, xhi0: Block, hs: seq<Block>, group: seq<Block>) returns (t: Block, xhi: Block)
    requires |group| == 8 && 8 <= |hs|
    ensures Reduce(Wide(t, xhi)) == DotSum(FirstXor(Reduce(Wide(t0, xhi0)), group), hs)
  {
    var tmp4 := CarrylessMultiply(t0, Poly, 0x10);
    t := SwapHalves(t0);
    t := XorBlock(t, tmp4);
    tmp4 := CarrylessMultiply(t, Poly, 0x10);
    t := SwapHalves(t);
    t := XorBlock(t, tmp4);
    XorBlockComm(t, xhi0);
    t := XorBlock(t, xhi0);
    assert t == Reduce(Wide(t0, xhi0));
    var acc := AccumulateBackward(t, hs, group);
    var w := Combine(acc);
    t, xhi := w.lo, w.hi;
  }

  /** Extending the blocks by one whole group folds that group into the state. */
  lemma FullGroupsExtend(s: Block, hs: seq<Block>, gs: seq<Block>, k: nat, width: nat)
    requires 1 <= width && k % width == 0 && (k + width) % width == 0 && k + width <= |gs| && width <= |hs|
    ensures FullGroups(s, hs, gs[..k + width], width)
         == DotSum(FirstXor(FullGroups(s, hs, gs[..k], width), gs[k..k + width]), hs)
  {
    var p := gs[..k + width];
    assert p[..k] == gs[..k];
    assert p[k..] == gs[k..k + width];
  }

  /** A group that starts on a group boundary inside the blocks ends inside them. */
  lemma NextGroupFits(i: nat, n: nat)
    requires i % 8 == 0 && n % 8 == 0 && i < n
    ensures i + 8 <= n && (i + 8) % 8 == 0
  {
    assert i == 8 * (i / 8) && n == 8 * (n / 8);
  }

  /**
   * The groups of eight, in input order, with the reduction of each group
   * deferred into the next.  When loaded is set, the state t0 is the loaded
   * value and the first group starts from it; otherwise the state is the
   * unreduced pair t0, xhi0.
   */
  method FoldGroups(t0: Block, xhi0: Block, hs: seq<Block>, gs: seq<Block>, loaded: bool)
    returns (t: Block, xhi: Block)
    requires |gs| % 8 == 0 && 0 < |gs| && 8 <= |hs|
    ensures Reduce(Wide(t, xhi)) == FullGroups(if loaded then t0 else Reduce(Wide(t0, xhi0)), hs, gs, 8)
  {
    ghost var s := if loaded then t0 else Reduce(Wide(t0, xhi0));
    var blocks := |gs|;
    t, xhi := t0, xhi0;
    var i := 0;
    if loaded {
      t, xhi := FoldFirstGroup(t0, hs, gs[..8]);
      FullGroupsExtend(s, hs, gs, 0, 8);
      assert gs[..0] == [] && gs[0..8] == gs[..8];
      i := 8;
    }
    while i < blocks
      invariant 0 <= i <= blocks && i % 8 == 0
      invariant Reduce(Wide(t, xhi)) == FullGroups(s, hs, gs[..i], 8)
    {
      NextGroupFits(i, blocks);
      FullGroupsExtend(s, hs, gs, i, 8);
      t, xhi := FoldNextGroup(t, xhi, hs, gs[i..i + 8]);
      i := i + 8;
    }
    assert gs[..i] == gs;
  }

  /**
   * The whole blocks: the short group of shortBlocks blocks, then the groups
   * of eight, reduced once at the end.
   */
  method FoldWholeBlocks(t0: Block, htbl: seq<Block>, ds: seq<Block>, shortBlocks: nat) returns (t: Block)
    requires shortBlocks == |ds| % 8 && shortBlocks <= |htbl| && (8 <= |ds| ==> 8 <= |htbl|)
    ensures t == WholeBlocks(t0, htbl, ds)
  {
    var blocks := |ds|;
    var xhi := Zero;
    t := t0;
    if shortBlocks != 0 {
      blocks := blocks - shortBlocks;
      t, xhi := FoldShortGroup(t0, htbl, ds[..shortBlocks]);
    }
    ghost var s1 := if shortBlocks != 0 then Reduce(Wide(t, xhi)) else t0;
    assert s1 == ShortGroup(t0, htbl, ds[..shortBlocks]);
    if blocks != 0 {
      t, xhi := FoldGroups(t, xhi, htbl, ds[shortBlocks..], shortBlocks == 0);
    }
    if blocks != 0 || shortBlocks != 0 {
      t := ReduceLate(t, xhi);
    }
    assert t == FullGroups(s1, htbl, ds[shortBlocks..], 8);
  }

  /** The zero-padded partial block, multiplied in on its own. */
  method FoldPartialBlock(t0: Block, h: Block, tail: seq<Byte>) returns (t: Block)
    requires |tail| < 16
    ensures t == Mult(XorBlock(t0, Load16(Pad16(tail))), h)
  {
    var data := XorBlock(t0, Load16(Pad16(tail)));
    var w := Combine(Product(data, h));
    t := ReduceLate(w.lo, w.hi);
    DotIsReducedProduct(data, h);
    DotIsMult(data, h);
  }

  /**
   * The batched fold: a leading short group, groups of eight blocks whose
   * reduction is deferred into the next group, and a zero-padded partial
   * block.  With a table of key powers it yields the Horner fold.
   */
  method PolyvalPowersTable(polyval: array<Byte>, htbl: seq<Block>, input: seq<Byte>)
    requires polyval.Length == 16 && PowersNeeded(|input|) <= |htbl|
    modifies polyval
    ensures |input| == 0 ==> polyval[..] == old(polyval[..])
    ensures 0 < |input| ==> polyval[..] == Store16(Batched(Load16(old(polyval[..])), htbl, input))
    ensures 0 < |input| && IsPowersTable(htbl) ==>
      polyval[..] == Store16(Horner(Load16(old(polyval[..])), htbl[0], input))
  {
    if |input| == 0 {
      return;
    }
    var remainder16 := |input| % 16;
    var remainder128 := |input| % 128 - remainder16;
    BlockCount(|input|);
    var t := Load16(polyval[..]);
    ghost var t0 := t;
    var full := |input| - remainder16;
    var ds := Chunks(input[..full]);
    t := FoldWholeBlocks(t, htbl, ds, remainder128 / 16);
    if remainder16 != 0 {
      t := FoldPartialBlock(t, htbl[0], input[full..]);
    }
    assert t == Batched(t0, htbl, input);
    Store(polyval, t);
    if IsPowersTable(htbl) {
      BatchedIsHorner(t0, htbl, input);
    }
  }

  /**
   * The two ways of computing POLYVAL agree: a table of size key powers built
   * from the hash key, used by the batched fold, gives the state that the
   * Horner fold with the hash key gives, whenever the table covers the groups.
   */
  method BatchedAgreesWithHorner(state: seq<Byte>, hashKey: seq<Byte>, input: seq<Byte>, size: nat)
    returns (viaHorner: seq<Byte>, viaTable: seq<Byte>)
    requires |state| == 16 && |hashKey| == 16 && 1 <= size && PowersNeeded(|input|) <= size
    ensures viaHorner == viaTable
    ensures viaHorner == if |input| == 0 then state else Store16(Horner(Load16(state), Load16(hashKey), input))
  {
    var htbl := new Block[size](_ => Zero);
    InitPowersTable(htbl, size, hashKey);
    ghost var tbl := htbl[..size];
    assert IsPowersTable(tbl) && tbl[0] == Load16(hashKey);
    var a := NewState(state);
    PolyvalHorner(a, hashKey, input);
    var b := NewState(state);
    PolyvalPowersTable(b, htbl[..size], input);
    viaHorner, viaTable := a[..], b[..];
  }

  /** A fresh 16-byte POLYVAL buffer holding the given state. */
  method NewState(state: seq<Byte>) returns (a: array<Byte>)
    requires |state| == 16
    ensures fresh(a) && a[..] == state
  {
    a := new Byte[16](_ => 0);
    forall i | 0 <= i < 16 {
      a[i] := state[i];
    }
  }
}
