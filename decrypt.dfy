/**
 * AES-GCM-SIV decryption with the table of key powers: counter-mode
 * decryption of the ciphertext under AES-256, six blocks at a time while
 * at least 96 bytes remain, then block by block, then a partial block,
 * while the recovered plaintext is folded into the running POLYVAL value.
 *
 * The AES rounds are parameters (AesRounds): the model is about the
 * counter mode and the authentication fold around them, not about AES.
 */
module Decrypt {
  import opened Blocks
  import opened Field
  import opened Polyval

  // ---------------------------------------------------------------------
  // The counter block
  // ---------------------------------------------------------------------

  /** The modulus of one 32-bit lane. */
  const LaneModulus: nat := 0x1_0000_0000

  /** The top bit of the last 32-bit lane, which is bit 63 of the high word. */
  const TopBit: nat := 0x8000_0000_0000_0000

  /** The initial counter: the tag with the top bit of its last lane set (Sse2.Or with the mask). */
  function InitialCounter(tag: Block): (r: Block)
    ensures r.lo == tag.lo
    ensures TopBit <= r.hi && r.hi % TopBit == tag.hi % TopBit
  {
    Block(tag.lo, if tag.hi < TopBit then tag.hi + TopBit else tag.hi)
  }

  /**
   * Sse2.Add on 32-bit lanes with n in lane 0 and zero elsewhere: the low
   * lane wraps around modulo 2^32 and the other three lanes do not change.
   */
  function CounterAdd(c: Block, n: nat): (r: Block)
    ensures r.hi == c.hi && r.lo / LaneModulus == c.lo / LaneModulus
    ensures r.lo % LaneModulus == (c.lo % LaneModulus + n) % LaneModulus
  {
    Block(c.lo - c.lo % LaneModulus + (c.lo % LaneModulus + n) % LaneModulus, c.hi)
  }

  /** Two additions to the counter are one addition of the sum. */
  lemma {:induction false} CounterAddCompose(c: Block, a: nat, b: nat)
    ensures CounterAdd(CounterAdd(c, a), b) == CounterAdd(c, a + b)
  {
    var x := c.lo % LaneModulus;
    var y := (x + a) % LaneModulus;
    assert (y + b) % LaneModulus == (x + a + b) % LaneModulus;
  }

  /** Adding nothing leaves the counter alone. */
  lemma {:induction false} CounterAddZero(c: Block)
    ensures CounterAdd(c, 0) == c
  {
  }

  /**
   * The six counters of a group of six blocks and the counter after them,
   * derived as the code derives them: ctr + 1, ctr + 2, then (ctr + 2) + 1,
   * (ctr + 2) + 2 and so on.
   */
  method SixCounters(ctr: Block) returns (cs: seq<Block>, next: Block)
    ensures |cs| == 6 && next == CounterAdd(ctr, 6)
    ensures forall j :: 0 <= j < 6 ==> cs[j] == CounterAdd(ctr, j)
  {
    var ctr3 := CounterAdd(ctr, 2);
    var ctr5 := CounterAdd(ctr3, 2);
    cs := [ctr, CounterAdd(ctr, 1), ctr3, CounterAdd(ctr3, 1), ctr5, CounterAdd(ctr5, 1)];
    next := CounterAdd(ctr5, 2);
    CounterAddZero(ctr);
    CounterAddCompose(ctr, 2, 1);
    CounterAddCompose(ctr, 2, 2);
    CounterAddCompose(ctr, 4, 1);
    CounterAddCompose(ctr, 4, 2);
  }

  // ---------------------------------------------------------------------
  // AES-256 as a parameter
  // ---------------------------------------------------------------------

  /** Aes.Encrypt and Aes.EncryptLast: one middle round and the last round. */
  datatype AesRounds = AesRounds(encrypt: (Block, Block) -> Block, encryptLast: (Block, Block) -> Block)

  /** The state after the key whitening and the middle rounds 1 to n. */
  function MiddleRounds(aes: AesRounds, ks: seq<Block>, x: Block, n: nat): Block
    requires |ks| == 15 && n <= 13
  {
    if n == 0 then x else aes.encrypt(MiddleRounds(aes, ks, x, n - 1), ks[n])
  }

  /** AES-256 of one block under the schedule ks: whitening, 13 rounds, the last round. */
  function Cipher(aes: AesRounds, ks: seq<Block>, b: Block): Block
    requires |ks| == 15
  {
    aes.encryptLast(MiddleRounds(aes, ks, XorBlock(b, ks[0]), |ks| - 2), ks[|ks| - 1])
  }

  /** One block through the schedule, round by round. */
  method EncryptBlock(aes: AesRounds, ks: seq<Block>, ctr: Block) returns (r: Block)
    requires |ks| == 15
    ensures r == Cipher(aes, ks, ctr)
  {
    r := XorBlock(ctr, ks[0]);
    ghost var x := r;
    for i := 1 to 14
      invariant r == MiddleRounds(aes, ks, x, i - 1)
    {
      r := aes.encrypt(r, ks[i]);
    }
    r := aes.encryptLast(r, ks[14]);
  }

  // ---------------------------------------------------------------------
  // Counter mode, as a reference
  // ---------------------------------------------------------------------

  /**
   * Counter mode from the counter ctr: each 16-byte block is xored with the
   * encryption of its counter, the counter advancing by one per block; a
   * final partial block uses the leading bytes of its key block.
   */
  function Ctr(aes: AesRounds, ks: seq<Block>, ctr: Block, data: seq<Byte>): (r: seq<Byte>)
    requires |ks| == 15
    ensures |r| == |data|
    decreases |data|
  {
    if |data| == 0 then []
    else if |data| < 16 then XorBytes(Store16(Cipher(aes, ks, ctr))[..|data|], data)
    else XorBytes(Store16(Cipher(aes, ks, ctr)), data[..16]) + Ctr(aes, ks, CounterAdd(ctr, 1), data[16..])
  }

  /** Counter mode undoes itself: decryption and encryption are one operation. */
  lemma {:induction false} CtrInvolution(aes: AesRounds, ks: seq<Block>, ctr: Block, data: seq<Byte>)
    requires |ks| == 15
    ensures Ctr(aes, ks, ctr, Ctr(aes, ks, ctr, data)) == data
    decreases |data|
  {
    var r := Ctr(aes, ks, ctr, data);
    var key := Store16(Cipher(aes, ks, ctr));
    if |data| == 0 {
    } else if |data| < 16 {
      XorBytesCancel(key[..|data|], data);
    } else {
      assert r[..16] == XorBytes(key, data[..16]);
      assert r[16..] == Ctr(aes, ks, CounterAdd(ctr, 1), data[16..]);
      XorBytesCancel(key, data[..16]);
      CtrInvolution(aes, ks, CounterAdd(ctr, 1), data[16..]);
      assert data == data[..16] + data[16..];
    }
  }

  /** Counter mode over whole blocks followed by more data continues from the advanced counter. */
  lemma {:induction false} CtrAppend(aes: AesRounds, ks: seq<Block>, ctr: Block, a: seq<Byte>, b: seq<Byte>)
    requires |ks| == 15 && |a| % 16 == 0
    ensures Ctr(aes, ks, ctr, a + b) == Ctr(aes, ks, ctr, a) + Ctr(aes, ks, CounterAdd(ctr, |a| / 16), b)
    decreases |a|
  {
    if |a| == 0 {
      assert a + b == b;
      CounterAddZero(ctr);
    } else {
      var next := CounterAdd(ctr, 1);
      var key := Store16(Cipher(aes, ks, ctr));
      BlocksAfterFirst(|a|);
      assert (a + b)[..16] == a[..16];
      assert (a + b)[16..] == a[16..] + b;
      assert Ctr(aes, ks, ctr, a + b) == XorBytes(key, a[..16]) + Ctr(aes, ks, next, a[16..] + b);
      assert Ctr(aes, ks, ctr, a) == XorBytes(key, a[..16]) + Ctr(aes, ks, next, a[16..]);
      CtrAppend(aes, ks, next, a[16..], b);
      CounterAddCompose(ctr, 1, |a[16..]| / 16);
    }
  }

  /** Dropping the first of a whole number of blocks leaves one block fewer. */
  lemma {:induction false} BlocksAfterFirst(n: nat)
    requires n % 16 == 0 && 0 < n
    ensures 16 <= n && (n - 16) % 16 == 0 && 1 + (n - 16) / 16 == n / 16
  {
  }

  /** A single whole block is xored with the encryption of its counter. */
  lemma {:induction false} CtrOneBlock(aes: AesRounds, ks: seq<Block>, ctr: Block, d: seq<Byte>)
    requires |ks| == 15 && |d| == 16
    ensures Ctr(aes, ks, ctr, d) == XorBytes(Store16(Cipher(aes, ks, ctr)), d)
  {
    assert d[..16] == d;
    assert d[16..] == [];
  }

  /** Decrypting one more whole block extends the decrypted prefix. */
  lemma {:induction false} CtrBlockAt(aes: AesRounds, ks: seq<Block>, ctr: Block, data: seq<Byte>, j: nat)
    requires |ks| == 15 && 16 * j + 16 <= |data|
    ensures Ctr(aes, ks, ctr, data[..16 * j + 16]) == Ctr(aes, ks, ctr, data[..16 * j]) +
      XorBytes(Store16(Cipher(aes, ks, CounterAdd(ctr, j))), data[16 * j..16 * j + 16])
  {
    var a, d := data[..16 * j], data[16 * j..16 * j + 16];
    assert data[..16 * j + 16] == a + d;
    CtrAppend(aes, ks, ctr, a, d);
    CtrOneBlock(aes, ks, CounterAdd(ctr, j), d);
  }

  /**
   * Block j of the output is block j of the input xored with the encryption
   * of the counter advanced by j.
   */
  lemma {:induction false} CtrKeystream(aes: AesRounds, ks: seq<Block>, ctr: Block, data: seq<Byte>, j: nat)
    requires |ks| == 15 && 16 * j + 16 <= |data|
    ensures Ctr(aes, ks, ctr, data)[16 * j..16 * j + 16] ==
      XorBytes(Store16(Cipher(aes, ks, CounterAdd(ctr, j))), data[16 * j..16 * j + 16])
  {
    var a, rest := data[..16 * j], data[16 * j..];
    assert data == a + rest;
    CtrAppend(aes, ks, ctr, a, rest);
    assert rest[..16] == data[16 * j..16 * j + 16];
  }

  /** A final partial block uses the leading bytes of the key block of its counter. */
  lemma {:induction false} CtrTail(aes: AesRounds, ks: seq<Block>, ctr: Block, data: seq<Byte>, n: nat)
    requires |ks| == 15 && 16 * n < |data| < 16 * n + 16
    ensures Ctr(aes, ks, ctr, data) == Ctr(aes, ks, ctr, data[..16 * n]) +
      XorBytes(Store16(Cipher(aes, ks, CounterAdd(ctr, n)))[..|data| - 16 * n], data[16 * n..])
  {
    var a, d := data[..16 * n], data[16 * n..];
    assert data == a + d;
    CtrAppend(aes, ks, ctr, a, d);
  }

  // ---------------------------------------------------------------------
  // The fold of the plaintext
  // ---------------------------------------------------------------------

  /** A multiple of 96 bytes is a multiple of six blocks. */
  lemma {:induction false} SixBlockGroups(len: nat)
    ensures (96 * (len / 96) + 15) / 16 == 6 * (len / 96) && (6 * (len / 96)) % 6 == 0
    ensures (96 * (len / 96)) % 16 == 0 && 96 * (len / 96) <= len
    ensures 0 < len / 96 ==> 96 <= len
  {
  }

  /**
   * The fold as decryption batches it: the plaintext of the six-block
   * groups, each group folded with powers hs[5] down to hs[0], then the
   * remaining blocks one at a time with hs[0].
   */
  ghost function DecryptFold(t: Block, hs: seq<Block>, pt: seq<Byte>): Block
    requires 1 <= |hs| && (96 <= |pt| ==> 6 <= |hs|)
  {
    var wide := 96 * (|pt| / 96);
    SixBlockGroups(|pt|);
    Horner(FullGroups(t, hs, Chunks(pt[..wide]), 6), hs[0], pt[wide..])
  }

  /** With a table of key powers the batched fold is the Horner fold of POLYVAL. */
  lemma {:induction false} DecryptFoldIsHorner(t: Block, hs: seq<Block>, pt: seq<Byte>)
    requires IsPowersTable(hs) && (96 <= |pt| ==> 6 <= |hs|)
    ensures DecryptFold(t, hs, pt) == Horner(t, hs[0], pt)
  {
    PowersTableIsKeyChain(hs);
    if |pt| < 96 {
      NoGroups(t, hs, pt);
      assert Chunks(pt[..0]) == [];
      assert pt[0..] == pt;
    } else {
      var wide, b := 96 * (|pt| / 96), 6 * (|pt| / 96);
      SixBlockGroups(|pt|);
      DecryptFoldSplit(t, hs, pt, wide, b);
      FullGroupsIsHorner(t, hs, Chunks(pt[..wide]), 6);
      HornerConcat(t, hs[0], pt[..wide], pt[wide..]);
      assert pt[..wide] + pt[wide..] == pt;
    }
  }

  /** The chunks of whole blocks followed by a stored register end with that register. */
  lemma {:induction false} ChunksStore(a: seq<Byte>, p: Block)
    requires |a| % 16 == 0
    ensures Chunks(a + Store16(p)) == Chunks(a) + [p]
  {
    ChunksAppend(a, Store16(p));
    ChunksOne(Store16(p));
    PadFull(Store16(p));
    LoadStore(p);
  }

  /** A stored plaintext register is the key block xored with the ciphertext bytes. */
  lemma {:induction false} DecryptedBlock(e: Block, c: seq<Byte>)
    requires |c| == 16
    ensures Store16(XorBlock(e, Load16(c))) == XorBytes(Store16(e), c)
  {
    StoreXor(e, Load16(c));
    StoreLoad(c);
  }

  /**
   * The single-block kernel: the plaintext register added into the state,
   * multiplied by h, reduced in two rounds.
   */
  method MultiplyBlock(t: Block, p: Block, h: Block) returns (r: Block)
    ensures r == Mult(XorBlock(t, p), h)
  {
    var x := XorBlock(p, t);
    var tmp1 := CarrylessMultiply(x, h, 0x00);
    var tmp4 := CarrylessMultiply(x, h, 0x11);
    var tmp2 := CarrylessMultiply(x, h, 0x10);
    var tmp3 := CarrylessMultiply(x, h, 0x01);
    tmp2 := XorBlock(tmp3, tmp2);
    tmp3 := ShiftLeftBytes8(tmp2);
    tmp2 := ShiftRightBytes8(tmp2);
    tmp1 := XorBlock(tmp1, tmp3);
    tmp4 := XorBlock(tmp2, tmp4);
    assert Combine(Product(x, h)) == Wide(tmp1, tmp4);
    r := ReduceLate(tmp1, tmp4);
    DotIsReducedProduct(x, h);
    DotIsMult(x, h);
    XorBlockComm(p, t);
  }

  /**
   * A six-block group of plaintext: the last block times hs[0] up to the
   * first block, with the state added, times hs[5]; then one reduction.
   */
  method FoldSix(t: Block, hs: seq<Block>, ps: seq<Block>) returns (r: Block)
    requires |ps| == 6 && 6 <= |hs|
    ensures r == DotSum(FirstXor(t, ps), hs)
  {
    var acc := AccumulateBackward(t, hs, ps);
    var w := Combine(acc);
    r := ReduceLate(w.lo, w.hi);
  }

  // ---------------------------------------------------------------------
  // Decryption
  // ---------------------------------------------------------------------

  /** Decrypts the block of ct at byte offset off under the counter ctr into pt at the same offset. */
  method DecryptBlockAt(aes: AesRounds, ks: seq<Block>, ct: seq<Byte>, pt: array<Byte>, off: nat, ctr: Block)
    returns (p: Block)
    requires |ks| == 15 && off + 16 <= |ct| <= pt.Length
    modifies pt
    ensures pt[off..off + 16] == XorBytes(Store16(Cipher(aes, ks, ctr)), ct[off..off + 16])
    ensures Store16(p) == pt[off..off + 16]
    ensures pt[..off] == old(pt[..off]) && pt[off + 16..] == old(pt[off + 16..])
  {
    var e := EncryptBlock(aes, ks, ctr);
    p := XorBlock(e, Load16(ct[off..off + 16]));
    StoreAt(pt, off, p);
    DecryptedBlock(e, ct[off..off + 16]);
  }

  /**
   * One more block of a group: the bytes around it are kept, so the
   * decrypted part of the group and its registers both grow by that block.
   */
  lemma {:induction false} GroupBlockStep(aes: AesRounds, ks: seq<Block>, ctr: Block, ct: seq<Byte>, x: seq<Byte>,
                                          orig: seq<Byte>, before: seq<Byte>, after: seq<Byte>, o: nat, j: nat,
                                          off: nat, j': nat, e: nat, p: Block, ps: seq<Block>)
    requires j' == j + 1 && e == off + 16
    requires |ks| == 15 && |orig| == |before| == |after| && j < 6 && off == o + 16 * j
    requires o + 96 <= |ct| && o + 96 <= |after| && x == ct[o..o + 96]
    requires before[o..off] == Ctr(aes, ks, ctr, x[..16 * j])
    requires Chunks(before[o..off]) == ps
    requires before[..o] == orig[..o] && before[off..] == orig[off..]
    requires after[off..e] == XorBytes(Store16(Cipher(aes, ks, CounterAdd(ctr, j))), ct[off..e])
    requires Store16(p) == after[off..e]
    requires after[..off] == before[..off] && after[e..] == before[e..]
    ensures after[o..e] == Ctr(aes, ks, ctr, x[..16 * j'])
    ensures Chunks(after[o..e]) == ps + [p]
    ensures after[..o] == orig[..o] && after[e..] == orig[e..]
  {
    var done, blk := after[o..off], after[off..e];
    SplitAt(before, after, o, off, e);
    GroupCtr(aes, ks, ctr, ct, x, o, j, off, j', e, done, blk);
    WholeBlocksLength(j);
    ChunksStore(done, p);
    GroupFrame(orig, before, after, o, off, e);
  }

  /** The bytes of a group before and at the block written at off. */
  lemma {:induction false} SplitAt(before: seq<Byte>, after: seq<Byte>, o: nat, off: nat, e: nat)
    requires o <= off <= e <= |before| == |after| && after[..off] == before[..off]
    ensures after[o..off] == before[o..off] && after[o..e] == after[o..off] + after[off..e]
  {
    assert before[..off][o..] == before[o..off];
    assert after[..off][o..] == after[o..off];
  }

  /** Counter mode over a group grows by one block at a time. */
  lemma {:induction false} GroupCtr(aes: AesRounds, ks: seq<Block>, ctr: Block, ct: seq<Byte>, x: seq<Byte>,
                                    o: nat, j: nat, off: nat, j': nat, e: nat, done: seq<Byte>, blk: seq<Byte>)
    requires |ks| == 15 && j' == j + 1 && e == off + 16 && j < 6 && off == o + 16 * j
    requires o + 96 <= |ct| && x == ct[o..o + 96]
    requires done == Ctr(aes, ks, ctr, x[..16 * j])
    requires blk == XorBytes(Store16(Cipher(aes, ks, CounterAdd(ctr, j))), ct[off..e])
    ensures done + blk == Ctr(aes, ks, ctr, x[..16 * j'])
  {
    SubSlice(ct, o, 96, 16 * j, 16, off);
    CtrBlockAt(aes, ks, ctr, x, j);
  }

  /** Writing the block at off keeps what was kept before it and after it. */
  lemma {:induction false} GroupFrame(orig: seq<Byte>, before: seq<Byte>, after: seq<Byte>, o: nat, off: nat, e: nat)
    requires o <= off && e == off + 16 && e <= |orig| == |before| == |after|
    requires before[..o] == orig[..o] && before[off..] == orig[off..]
    requires after[..off] == before[..off] && after[e..] == before[e..]
    ensures after[..o] == orig[..o] && after[e..] == orig[e..]
  {
    assert after[..o] == after[..off][..o];
    assert before[..o] == before[..off][..o];
    assert before[e..] == before[off..][16..];
    assert orig[e..] == orig[off..][16..];
  }

  /** A slice of a slice is a slice. */
  lemma {:induction false} SubSlice(s: seq<Byte>, o: nat, n: nat, a: nat, m: nat, t: nat)
    requires o + n <= |s| && a + m <= n && t == o + a
    ensures s[o..o + n][a..a + m] == s[t..t + m]
  {
    var u := s[o..o + n];
    assert forall i :: 0 <= i < n ==> u[i] == s[o + i];
    assert u[a..a + m] == s[t..t + m];
  }

  /** j whole blocks are a multiple of 16 bytes. */
  lemma {:induction false} WholeBlocksLength(j: nat)
    ensures (16 * j) % 16 == 0 && (16 * j) / 16 == j
  {
  }

  /** Block j of the group at byte offset o, decrypted under counter c, the counter advanced by j. */
  method DecryptGroupBlock(aes: AesRounds, ks: seq<Block>, ct: seq<Byte>, pt: array<Byte>, o: nat, j: nat,
                           off: nat, c: Block, ghost ctr: Block, ghost x: seq<Byte>, ghost orig: seq<Byte>,
                           ps: seq<Block>)
    returns (j': nat, off': nat, ps': seq<Block>)
    requires |ks| == 15 && j < 6 && off == o + 16 * j && o + 96 <= |ct| <= pt.Length == |orig|
    requires x == ct[o..o + 96] && c == CounterAdd(ctr, j)
    requires pt[o..off] == Ctr(aes, ks, ctr, x[..16 * j])
    requires Chunks(pt[o..off]) == ps && |ps| == j
    requires pt[..o] == orig[..o] && pt[off..] == orig[off..]
    modifies pt
    ensures j' == j + 1 && off' == off + 16 && off' == o + 16 * j'
    ensures pt[o..off'] == Ctr(aes, ks, ctr, x[..16 * j'])
    ensures Chunks(pt[o..off']) == ps' && |ps'| == j'
    ensures pt[..o] == orig[..o] && pt[off'..] == orig[off'..]
  {
    ghost var before := pt[..];
    var p := DecryptBlockAt(aes, ks, ct, pt, off, c);
    j', off' := j + 1, off + 16;
    GroupBlockStep(aes, ks, ctr, ct, x, orig, before, pt[..], o, j, off, j', off', p, ps);
    ps' := ps + [p];
  }

  /** The six blocks of a group from block b on, under six consecutive counters. */
  method DecryptSix(aes: AesRounds, ks: seq<Block>, ct: seq<Byte>, pt: array<Byte>, b: nat, ctr: Block)
    returns (ps: seq<Block>, next: Block)
    requires |ks| == 15 && 16 * b + 96 <= |ct| <= pt.Length
    modifies pt
    ensures next == CounterAdd(ctr, 6) && |ps| == 6
    ensures pt[16 * b..16 * b + 96] == Ctr(aes, ks, ctr, ct[16 * b..16 * b + 96])
    ensures Chunks(pt[16 * b..16 * b + 96]) == ps
    ensures pt[..16 * b] == old(pt[..16 * b]) && pt[16 * b + 96..] == old(pt[16 * b + 96..])
  {
    ghost var orig := pt[..];
    var cs;
    cs, next := SixCounters(ctr);
    var o := 16 * b;
    ghost var x := ct[o..o + 96];
    ps := [];
    var j, off := 0, o;
    while j < 6
      invariant 0 <= j <= 6 && off == o + 16 * j
      invariant pt[o..off] == Ctr(aes, ks, ctr, x[..16 * j])
      invariant Chunks(pt[o..off]) == ps && |ps| == j
      invariant pt[..o] == orig[..o] && pt[off..] == orig[off..]
    {
      j, off, ps := DecryptGroupBlock(aes, ks, ct, pt, o, j, off, cs[j], ctr, x, orig, ps);
    }
    assert x[..96] == x;
  }

  /**
   * A group of six decrypted blocks after the decrypted prefix: the prefix
   * grows by the group, its registers are appended to the chunks, and the
   * bytes beyond the group stay as they were.
   */
  lemma {:induction false} WideStep(aes: AesRounds, ks: seq<Block>, ctr0: Block, ct: seq<Byte>, orig: seq<Byte>,
                                    before: seq<Byte>, after: seq<Byte>, b: nat, e: nat, next: seq<Block>)
    requires e == 16 * b + 96
    requires |ks| == 15 && |orig| == |before| == |after| && 16 * b + 96 <= |ct| <= |after|
    requires before[..16 * b] == Ctr(aes, ks, ctr0, ct[..16 * b])
    requires before[16 * b..] == orig[16 * b..]
    requires after[16 * b..16 * b + 96] == Ctr(aes, ks, CounterAdd(ctr0, b), ct[16 * b..16 * b + 96])
    requires Chunks(after[16 * b..16 * b + 96]) == next
    requires after[..16 * b] == before[..16 * b] && after[16 * b + 96..] == before[16 * b + 96..]
    ensures after[..e] == Ctr(aes, ks, ctr0, ct[..e])
    ensures Chunks(after[..e]) == Chunks(before[..16 * b]) + next
    ensures after[e..] == orig[e..]
  {
    var n := 16 * b;
    assert after[..n + 96] == after[..n] + after[n..n + 96];
    assert ct[..n + 96] == ct[..n] + ct[n..n + 96];
    WholeBlocksLength(b);
    CtrAppend(aes, ks, ctr0, ct[..n], ct[n..n + 96]);
    ChunksAppend(after[..n], after[n..n + 96]);
    assert before[n + 96..] == before[n..][96..];
    assert orig[n + 96..] == orig[n..][96..];
  }

  /**
   * Folding the group before the newest one: the fold over the first
   * groups, extended by that group, is the fold over one group more.
   */
  lemma {:induction false} FoldStep(t0: Block, hs: seq<Block>, gs: seq<Block>, b: nat, t: Block, prev: seq<Block>)
    requires 6 <= b && b % 6 == 0 && |gs| == b && 6 <= |hs|
    requires t == FullGroups(t0, hs, gs[..b - 6], 6) && prev == gs[b - 6..]
    ensures DotSum(FirstXor(t, prev), hs) == FullGroups(t0, hs, gs, 6)
  {
    GroupDrop(b, 6);
    assert FullGroups(t0, hs, gs, 6) == DotSum(FirstXor(FullGroups(t0, hs, gs[..b - 6], 6), gs[b - 6..]), hs);
  }

  /**
   * One pass of the six-block loop: the next group is decrypted and the
   * group before it is folded into the accumulator.
   */
  method DecryptNextGroup(aes: AesRounds, ks: seq<Block>, ct: seq<Byte>, pt: array<Byte>, htbl: seq<Block>,
                          ghost ctr0: Block, ghost t0: Block, ghost orig: seq<Byte>, ghost gs: seq<Block>,
                          blocks: nat, ctr: Block, t: Block, prev: seq<Block>)
    returns (blocks': nat, ctr': Block, t': Block, next: seq<Block>, ghost gs': seq<Block>)
    requires |ks| == 15 && 16 * blocks + 96 <= |ct| <= pt.Length == |orig| && 6 <= |htbl|
    requires 6 <= blocks && blocks % 6 == 0 && (blocks - 6) % 6 == 0 && ctr == CounterAdd(ctr0, blocks)
    requires pt[..16 * blocks] == Ctr(aes, ks, ctr0, ct[..16 * blocks])
    requires pt[16 * blocks..] == orig[16 * blocks..]
    requires gs == Chunks(pt[..16 * blocks]) && |gs| == blocks && prev == gs[blocks - 6..]
    requires t == FullGroups(t0, htbl, gs[..blocks - 6], 6)
    modifies pt
    ensures blocks' == blocks + 6 && blocks' % 6 == 0 && (blocks' - 6) % 6 == 0 && ctr' == CounterAdd(ctr0, blocks')
    ensures pt[..16 * blocks'] == Ctr(aes, ks, ctr0, ct[..16 * blocks'])
    ensures pt[16 * blocks'..] == orig[16 * blocks'..]
    ensures gs' == Chunks(pt[..16 * blocks']) && |gs'| == blocks' && next == gs'[blocks' - 6..]
    ensures t' == FullGroups(t0, htbl, gs'[..blocks' - 6], 6)
  {
    ghost var before := pt[..];
    next, ctr' := DecryptSix(aes, ks, ct, pt, blocks, ctr);
    blocks' := blocks + 6;
    NextGroupCount(blocks, blocks');
    WideStep(aes, ks, ctr0, ct, orig, before, pt[..], blocks, 16 * blocks', next);
    CounterAddCompose(ctr0, blocks, 6);
    FoldStep(t0, htbl, gs, blocks, t, prev);
    t' := FoldSix(t, htbl, prev);
    gs' := gs + next;
    assert gs'[..blocks] == gs;
  }

  /**
   * The six-block phase: the first group is decrypted on its own, and each
   * later group is decrypted while the group before it is folded in; the
   * last group is folded after the loop.
   */
  method DecryptWide(aes: AesRounds, ks: seq<Block>, ct: seq<Byte>, pt: array<Byte>, htbl: seq<Block>,
                     ctr0: Block, t0: Block)
    returns (t: Block, ctr: Block, blocks: nat)
    requires |ks| == 15 && 96 <= |ct| <= pt.Length && 6 <= |htbl|
    modifies pt
    ensures blocks == 6 * (|ct| / 96) && ctr == CounterAdd(ctr0, blocks)
    ensures pt[..16 * blocks] == Ctr(aes, ks, ctr0, ct[..16 * blocks])
    ensures pt[16 * blocks..] == old(pt[16 * blocks..])
    ensures |Chunks(pt[..16 * blocks])| == blocks && blocks % 6 == 0
    ensures t == FullGroups(t0, htbl, Chunks(pt[..16 * blocks]), 6)
  {
    ghost var orig := pt[..];
    var prev;
    prev, ctr := DecryptSix(aes, ks, ct, pt, 0, ctr0);
    blocks := 6;
    t := t0;
    ghost var gs := prev;
    assert pt[..96] == pt[0..96] && ct[..96] == ct[0..96];
    while 16 * blocks + 96 <= |ct|
      invariant 6 <= blocks && blocks % 6 == 0 && (blocks - 6) % 6 == 0 && 16 * blocks <= |ct|
      invariant ctr == CounterAdd(ctr0, blocks)
      invariant pt[..16 * blocks] == Ctr(aes, ks, ctr0, ct[..16 * blocks])
      invariant pt[16 * blocks..] == orig[16 * blocks..]
      invariant gs == Chunks(pt[..16 * blocks]) && |gs| == blocks && prev == gs[blocks - 6..]
      invariant t == FullGroups(t0, htbl, gs[..blocks - 6], 6)
      decreases |ct| - 16 * blocks
    {
      blocks, ctr, t, prev, gs := DecryptNextGroup(aes, ks, ct, pt, htbl, ctr0, t0, orig, gs, blocks, ctr, t, prev);
    }
    FoldStep(t0, htbl, gs, blocks, t, prev);
    t := FoldSix(t, htbl, prev);
    WideCount(|ct|, blocks);
  }

  /** A whole number of groups plus one group is a whole number of groups. */
  lemma {:induction false} NextGroupCount(b: nat, b': nat)
    requires b % 6 == 0 && b' == b + 6
    ensures b' % 6 == 0 && (b' - 6) % 6 == 0
  {
  }

  /** The loop stops at the largest multiple of six blocks that fits. */
  lemma {:induction false} WideCount(len: nat, blocks: nat)
    requires blocks % 6 == 0 && 16 * blocks <= len < 16 * blocks + 96
    ensures blocks == 6 * (len / 96)
  {
    var g := blocks / 6;
    assert blocks == 6 * g;
    assert 96 * g <= len < 96 * g + 96;
  }

  // ---------------------------------------------------------------------
  // Single blocks and the final partial block
  // ---------------------------------------------------------------------

  /** Whole blocks from block s to block b span a multiple of 16 bytes. */
  lemma {:induction false} WholeBlocksBetween(s: nat, b: nat)
    requires s <= b
    ensures (16 * b - 16 * s) % 16 == 0
  {
    WholeBlocksLength(b - s);
    assert 16 * (b - s) == 16 * b - 16 * s;
  }

  /**
   * One more decrypted block: the decrypted prefix grows by it, the bytes
   * after it are still the original ones, and multiplying its register into
   * the state extends the Horner fold by that block.
   */
  lemma {:induction false} BlockStep(aes: AesRounds, ks: seq<Block>, ctr0: Block, ct: seq<Byte>, orig: seq<Byte>,
                                     before: seq<Byte>, after: seq<Byte>, h: Block, t1: Block, s: nat, b: nat, e: nat,
                                     p: Block, t: Block)
    requires e == 16 * b + 16 && s <= b
    requires |ks| == 15 && |orig| == |before| == |after| && e <= |ct| <= |after|
    requires before[..16 * b] == Ctr(aes, ks, ctr0, ct[..16 * b])
    requires before[16 * b..] == orig[16 * b..]
    requires t == Horner(t1, h, before[16 * s..16 * b])
    requires after[16 * b..e] == XorBytes(Store16(Cipher(aes, ks, CounterAdd(ctr0, b))), ct[16 * b..e])
    requires Store16(p) == after[16 * b..e]
    requires after[..16 * b] == before[..16 * b] && after[e..] == before[e..]
    ensures after[..e] == Ctr(aes, ks, ctr0, ct[..e])
    ensures after[e..] == orig[e..]
    ensures Mult(XorBlock(t, p), h) == Horner(t1, h, after[16 * s..e])
  {
    var n := 16 * b;
    assert after[..e] == after[..n] + after[n..e];
    CtrBlockAt(aes, ks, ctr0, ct, b);
    assert before[e..] == before[n..][16..];
    assert orig[e..] == orig[n..][16..];
    var a, d := after[16 * s..n], after[n..e];
    assert after[16 * s..e] == a + d;
    assert a == before[16 * s..n];
    WholeBlocksBetween(s, b);
    HornerStep(t1, h, a, d);
    PadFull(d);
    LoadStore(p);
  }

  /**
   * One pass of the single-block loop: the counter is taken and advanced,
   * the block is decrypted and stored, and its register is multiplied into
   * the state with h.
   */
  method DecryptNextBlock(aes: AesRounds, ks: seq<Block>, ct: seq<Byte>, pt: array<Byte>, h: Block,
                          ghost ctr0: Block, ghost t1: Block, ghost orig: seq<Byte>, ghost start: nat,
                          blocks: nat, ctr: Block, t: Block)
    returns (blocks': nat, ctr': Block, t': Block)
    requires |ks| == 15 && 16 * blocks + 16 <= |ct| <= pt.Length == |orig| && start <= blocks
    requires ctr == CounterAdd(ctr0, blocks)
    requires pt[..16 * blocks] == Ctr(aes, ks, ctr0, ct[..16 * blocks])
    requires pt[16 * blocks..] == orig[16 * blocks..]
    requires t == Horner(t1, h, pt[16 * start..16 * blocks])
    modifies pt
    ensures blocks' == blocks + 1 && ctr' == CounterAdd(ctr0, blocks')
    ensures pt[..16 * blocks'] == Ctr(aes, ks, ctr0, ct[..16 * blocks'])
    ensures pt[16 * blocks'..] == orig[16 * blocks'..]
    ensures t' == Horner(t1, h, pt[16 * start..16 * blocks'])
  {
    ghost var before := pt[..];
    var tmp := ctr;
    ctr' := CounterAdd(ctr, 1);
    var p := DecryptBlockAt(aes, ks, ct, pt, 16 * blocks, tmp);
    t' := MultiplyBlock(t, p, h);
    blocks' := blocks + 1;
    BlockStep(aes, ks, ctr0, ct, orig, before, pt[..], h, t1, start, blocks, 16 * blocks', p, t);
    CounterAddCompose(ctr0, blocks, 1);
  }

  /**
   * The single-block phase: every whole block left after the six-block
   * groups is decrypted and folded with h, one at a time.
   */
  method DecryptBlocks(aes: AesRounds, ks: seq<Block>, ct: seq<Byte>, pt: array<Byte>, h: Block,
                       ghost ctr0: Block, start: nat, ctrStart: Block, t0: Block)
    returns (blocks: nat, ctr: Block, t: Block)
    requires |ks| == 15 && 16 * start <= |ct| <= pt.Length
    requires ctrStart == CounterAdd(ctr0, start)
    requires pt[..16 * start] == Ctr(aes, ks, ctr0, ct[..16 * start])
    modifies pt
    ensures start <= blocks && 16 * blocks <= |ct| < 16 * blocks + 16
    ensures ctr == CounterAdd(ctr0, blocks)
    ensures pt[..16 * blocks] == Ctr(aes, ks, ctr0, ct[..16 * blocks])
    ensures pt[16 * blocks..] == old(pt[16 * blocks..])
    ensures t == Horner(t0, h, pt[16 * start..16 * blocks])
  {
    ghost var orig := pt[..];
    blocks, ctr, t := start, ctrStart, t0;
    var ctLen := |ct| - 16 * start;
    assert pt[16 * start..16 * start] == [];
    while ctLen >= 16
      invariant start <= blocks && ctLen == |ct| - 16 * blocks && 0 <= ctLen
      invariant ctr == CounterAdd(ctr0, blocks)
      invariant pt[..16 * blocks] == Ctr(aes, ks, ctr0, ct[..16 * blocks])
      invariant pt[16 * blocks..] == orig[16 * blocks..]
      invariant t == Horner(t0, h, pt[16 * start..16 * blocks])
    {
      blocks, ctr, t := DecryptNextBlock(aes, ks, ct, pt, h, ctr0, t0, orig, start, blocks, ctr, t);
      ctLen := ctLen - 16;
    }
  }

  /** The leading bytes of a decrypted zero-padded block are the decrypted partial block. */
  lemma {:induction false} TailBlock(e: Block, c: seq<Byte>, padded: seq<Byte>)
    requires |c| < 16 && |padded| == 16 && padded[..|c|] == c
    ensures Store16(XorBlock(e, Load16(padded)))[..|c|] == XorBytes(Store16(e)[..|c|], c)
  {
    DecryptedBlock(e, padded);
  }

  /** Span.CopyTo: the bytes of src written into dst from index at on. */
  method CopyTo(src: seq<Byte>, dst: array<Byte>, at: nat)
    requires at + |src| <= dst.Length
    modifies dst
    ensures dst[at..at + |src|] == src
    ensures dst[..at] == old(dst[..at]) && dst[at + |src|..] == old(dst[at + |src|..])
  {
    forall i | 0 <= i < |src| {
      dst[at + i] := src[i];
    }
  }

  /** Span.Clear: the bytes of dst from index from on set to zero. */
  method ClearFrom(dst: array<Byte>, from: nat)
    requires from <= dst.Length
    modifies dst
    ensures dst[..from] == old(dst[..from]) && dst[from..] == Zeros(dst.Length - from)
  {
    forall i | from <= i < dst.Length {
      dst[i] := 0;
    }
  }

  /** A buffer holding m followed by zeros is m padded to a block. */
  lemma {:induction false} PaddedBuffer(bs: seq<Byte>, m: seq<Byte>)
    requires |bs| == 16 && |m| <= 16 && bs[..|m|] == m && bs[|m|..] == Zeros(16 - |m|)
    ensures bs == Pad16(m)
  {
    assert bs == bs[..|m|] + bs[|m|..];
  }

  /**
   * The final partial block: it is copied into a 16-byte buffer, decrypted
   * there, its leading bytes are copied out, the rest of the buffer is
   * cleared and the buffer is folded with h.
   */
  method DecryptTail(aes: AesRounds, ks: seq<Block>, ct: seq<Byte>, pt: array<Byte>, h: Block,
                     off: nat, ctr: Block, t: Block)
    returns (t': Block)
    requires |ks| == 15 && off < |ct| < off + 16 && |ct| <= pt.Length
    modifies pt
    ensures pt[off..|ct|] == XorBytes(Store16(Cipher(aes, ks, ctr))[..|ct| - off], ct[off..])
    ensures pt[..off] == old(pt[..off]) && pt[|ct|..] == old(pt[|ct|..])
    ensures t' == Mult(XorBlock(t, Load16(Pad16(pt[off..|ct|]))), h)
  {
    var ctLen := |ct| - off;
    var b := new Byte[16](_ => 0);
    CopyTo(ct[off..], b, 0);
    assert b[..][..ctLen] == b[0..ctLen];
    var e := EncryptBlock(aes, ks, ctr);
    var tmp := XorBlock(e, Load16(b[..]));
    TailBlock(e, ct[off..], b[..]);
    Store(b, tmp);
    CopyTo(b[..ctLen], pt, off);
    ClearFrom(b, ctLen);
    PaddedBuffer(b[..], pt[off..|ct|]);
    t' := MultiplyBlock(t, Load16(b[..]), h);
  }

  // ---------------------------------------------------------------------
  // The whole operation
  // ---------------------------------------------------------------------

  /** A decrypted prefix of whole blocks is the decryption of the matching prefix. */
  lemma {:induction false} CtrPrefix(aes: AesRounds, ks: seq<Block>, ctr: Block, data: seq<Byte>, n: nat)
    requires |ks| == 15 && n <= |data| && n % 16 == 0
    ensures Ctr(aes, ks, ctr, data)[..n] == Ctr(aes, ks, ctr, data[..n])
  {
    assert data == data[..n] + data[n..];
    CtrAppend(aes, ks, ctr, data[..n], data[n..]);
  }

  /**
   * The plaintext after the single blocks and the tail is the counter-mode
   * decryption of the whole ciphertext.
   */
  lemma {:induction false} CtrAssembly(aes: AesRounds, ks: seq<Block>, ctr0: Block, ct: seq<Byte>,
                                       pb: seq<Byte>, pf: seq<Byte>, n: nat)
    requires |ks| == 15 && n <= |ct| < n + 16 && n % 16 == 0 && |ct| <= |pb| == |pf|
    requires pb[..n] == Ctr(aes, ks, ctr0, ct[..n]) && pf[..n] == pb[..n]
    requires n < |ct| ==>
      pf[n..|ct|] == XorBytes(Store16(Cipher(aes, ks, CounterAdd(ctr0, n / 16)))[..|ct| - n], ct[n..])
    ensures pf[..|ct|] == Ctr(aes, ks, ctr0, ct)
  {
    if n < |ct| {
      CtrTail(aes, ks, ctr0, ct, n / 16);
      assert pf[..|ct|] == pf[..n] + pf[n..|ct|];
    } else {
      assert ct[..n] == ct;
    }
  }

  /**
   * The state after the single blocks and the tail is the Horner fold, with
   * h, of everything after the six-block groups.
   */
  lemma {:induction false} TailFold(h: Block, tw: Block, tb: Block, tf: Block,
                                    pb: seq<Byte>, pf: seq<Byte>, wide: nat, n: nat, len: nat)
    requires wide <= n <= len < n + 16 && len <= |pb| == |pf| && (n - wide) % 16 == 0
    requires tb == Horner(tw, h, pb[wide..n])
    requires pf[..n] == pb[..n]
    requires n < len ==> tf == Mult(XorBlock(tb, Load16(Pad16(pf[n..len]))), h)
    requires n == len ==> tf == tb
    ensures tf == Horner(tw, h, pf[wide..len])
  {
    assert pb[wide..n] == pf[..n][wide..n] == pf[wide..n];
    if n < len {
      assert pf[wide..len] == pf[wide..n] + pf[n..len];
      HornerStep(tw, h, pf[wide..n], pf[n..len]);
    }
  }

  /**
   * The state after the six-block groups, the single blocks and the tail is
   * the batched fold of the plaintext.
   */
  lemma {:induction false} FoldAssembly(hs: seq<Block>, t0: Block, tw: Block, tf: Block,
                                        pw: seq<Byte>, pf: seq<Byte>, len: nat, wide: nat, b: nat)
    requires 1 <= |hs| && (96 <= len ==> 6 <= |hs|) && len <= |pw| == |pf|
    requires wide == 96 * (len / 96) && wide <= len
    requires wide == 16 * b && |Chunks(pw[..wide])| == b && b % 6 == 0 && (0 < b ==> 6 <= |hs|)
    requires tw == FullGroups(t0, hs, Chunks(pw[..wide]), 6)
    requires pf[..wide] == pw[..wide]
    requires tf == Horner(tw, hs[0], pf[wide..len])
    ensures tf == DecryptFold(t0, hs, pf[..len])
  {
    var p := pf[..len];
    PrefixSlices(pf, len, wide);
    if b == 0 {
      NoGroups(t0, hs, p);
    } else {
      assert Chunks(p[..wide]) == Chunks(pw[..wide]);
      DecryptFoldSplit(t0, hs, p, wide, b);
      assert FullGroups(t0, hs, Chunks(p[..wide]), 6) == tw;
    }
  }

  /** Without a whole group the batched fold is the Horner fold with hs[0]. */
  lemma {:induction false} NoGroups(t: Block, hs: seq<Block>, p: seq<Byte>)
    requires 1 <= |hs| && |p| < 96
    ensures DecryptFold(t, hs, p) == Horner(FullGroups(t, hs, Chunks(p[..0]), 6), hs[0], p[0..])
  {
  }

  /** Slices of a prefix are slices of the whole. */
  lemma {:induction false} PrefixSlices(s: seq<Byte>, len: nat, m: nat)
    requires m <= len <= |s|
    ensures s[..len][..m] == s[..m] && s[..len][m..] == s[m..len]
  {
  }

  /** The batched fold splits at the end of the six-block groups. */
  lemma {:induction false} DecryptFoldSplit(t: Block, hs: seq<Block>, p: seq<Byte>, wide: nat, b: nat)
    requires 1 <= |hs| && (96 <= |p| ==> 6 <= |hs|) && wide == 96 * (|p| / 96) && 0 < b
    requires wide == 16 * b && |Chunks(p[..wide])| == b && b % 6 == 0 && (0 < b ==> 6 <= |hs|)
    ensures DecryptFold(t, hs, p) == Horner(FullGroups(t, hs, Chunks(p[..wide]), 6), hs[0], p[wide..])
  {
  }

  /** The six-block phase when there are at least six blocks, and nothing otherwise. */
  method DecryptGroups(aes: AesRounds, ks: seq<Block>, ct: seq<Byte>, pt: array<Byte>, htbl: seq<Block>,
                       ctr0: Block, t0: Block)
    returns (t: Block, ctr: Block, blocks: nat)
    requires |ks| == 15 && |ct| <= pt.Length && (96 <= |ct| ==> 6 <= |htbl|)
    modifies pt
    ensures blocks == 6 * (|ct| / 96) && 16 * blocks == 96 * (|ct| / 96) && ctr == CounterAdd(ctr0, blocks)
    ensures 0 < blocks ==> 96 <= |ct|
    ensures pt[..16 * blocks] == Ctr(aes, ks, ctr0, ct[..16 * blocks])
    ensures pt[16 * blocks..] == old(pt[16 * blocks..])
    ensures |Chunks(pt[..16 * blocks])| == blocks && blocks % 6 == 0
    ensures t == FullGroups(t0, htbl, Chunks(pt[..16 * blocks]), 6)
  {
    if |ct| >= 96 {
      t, ctr, blocks := DecryptWide(aes, ks, ct, pt, htbl, ctr0, t0);
    } else {
      t, ctr, blocks := t0, ctr0, 0;
      CounterAddZero(ctr0);
      assert Chunks(pt[..0]) == [];
      assert pt[..0] == [] == Ctr(aes, ks, ctr0, ct[..0]);
    }
  }

  /**
   * The single-block phase and the final partial block: everything after
   * the six-block groups is decrypted and folded with h.
   */
  method DecryptRest(aes: AesRounds, ks: seq<Block>, ct: seq<Byte>, pt: array<Byte>, h: Block,
                     ghost ctr0: Block, start: nat, ctr: Block, t: Block)
    returns (t': Block)
    requires |ks| == 15 && 16 * start <= |ct| <= pt.Length
    requires ctr == CounterAdd(ctr0, start)
    requires pt[..16 * start] == Ctr(aes, ks, ctr0, ct[..16 * start])
    modifies pt
    ensures pt[..|ct|] == Ctr(aes, ks, ctr0, ct)
    ensures pt[..16 * start] == old(pt[..16 * start]) && pt[|ct|..] == old(pt[|ct|..])
    ensures t' == Horner(t, h, pt[16 * start..|ct|])
  {
    ghost var orig := pt[..];
    var blocks, c, tb := DecryptBlocks(aes, ks, ct, pt, h, ctr0, start, ctr, t);
    ghost var pb := pt[..];
    t' := tb;
    if 16 * blocks < |ct| {
      t' := DecryptTail(aes, ks, ct, pt, h, 16 * blocks, c, tb);
    }
    WholeBlocksLength(blocks);
    WholeBlocksLength(start);
    WholeBlocksBetween(start, blocks);
    PrefixKept(aes, ks, ctr0, ct, orig, pb, 16 * start, 16 * blocks);
    CtrAssembly(aes, ks, ctr0, ct, pb, pt[..], 16 * blocks);
    TailFold(h, t, tb, t', pb, pt[..], 16 * start, 16 * blocks, |ct|);
    FrameAssembly(orig, orig, pb, pt[..], 16 * start, 16 * blocks, |ct|);
    PrefixAssembly(orig, pb, pt[..], 16 * start, 16 * blocks);
  }

  /** A prefix kept by the single-block phase and by the tail is kept by both. */
  lemma {:induction false} PrefixAssembly(orig: seq<Byte>, pb: seq<Byte>, pf: seq<Byte>, m: nat, n: nat)
    requires m <= n <= |orig| == |pb| == |pf|
    requires pb[..m] == orig[..m] && pf[..n] == pb[..n]
    ensures pf[..m] == orig[..m]
  {
    assert pf[..m] == pf[..n][..m];
    assert pb[..m] == pb[..n][..m];
  }

  /**
   * Decrypts ct into pt under the counter derived from the tag, and folds
   * the plaintext into the POLYVAL state in polyval: six-block groups first
   * (when there are at least six blocks), then single blocks, then a final
   * partial block.
   */
  method DecryptPowersTable(aes: AesRounds, ct: seq<Byte>, pt: array<Byte>, polyval: array<Byte>,
                            htbl: seq<Block>, tag: seq<Byte>, ks: seq<Block>)
    requires pt != polyval && |ct| <= pt.Length && polyval.Length == 16 && |tag| == 16 && |ks| == 15
    requires 1 <= |htbl| && (96 <= |ct| ==> 6 <= |htbl|)
    modifies pt, polyval
    ensures pt[..|ct|] == Ctr(aes, ks, InitialCounter(Load16(tag)), ct)
    ensures pt[|ct|..] == old(pt[|ct|..])
    ensures polyval[..] == Store16(DecryptFold(Load16(old(polyval[..])), htbl, pt[..|ct|]))
    ensures IsPowersTable(htbl) ==> polyval[..] == Store16(Horner(Load16(old(polyval[..])), htbl[0], pt[..|ct|]))
  {
    ghost var orig := pt[..];
    var t := Load16(polyval[..]);
    ghost var t0 := t;
    var ctr := InitialCounter(Load16(tag));
    ghost var ctr0 := ctr;
    var blocks;
    t, ctr, blocks := DecryptGroups(aes, ks, ct, pt, htbl, ctr, t);
    ghost var tw, pw := t, pt[..];
    var h := htbl[0];
    t := DecryptRest(aes, ks, ct, pt, h, ctr0, blocks, ctr, t);
    assert pt[..16 * blocks] == pw[..16 * blocks];
    FoldAssembly(htbl, t0, tw, t, pw, pt[..], |ct|, 16 * blocks, blocks);
    FrameAssembly(orig, pw, pw, pt[..], 16 * blocks, 16 * blocks, |ct|);
    Store(polyval, t);
    if IsPowersTable(htbl) {
      DecryptFoldIsHorner(t0, htbl, pt[..|ct|]);
    }
  }

  /** Decrypting more blocks leaves an already decrypted prefix as it was. */
  lemma {:induction false} PrefixKept(aes: AesRounds, ks: seq<Block>, ctr0: Block, ct: seq<Byte>,
                                      pw: seq<Byte>, pb: seq<Byte>, m: nat, n: nat)
    requires |ks| == 15 && m <= n <= |ct| && n <= |pw| && n <= |pb| && m % 16 == 0
    requires pw[..m] == Ctr(aes, ks, ctr0, ct[..m]) && pb[..n] == Ctr(aes, ks, ctr0, ct[..n])
    ensures pb[..m] == pw[..m]
  {
    CtrPrefix(aes, ks, ctr0, ct[..n], m);
    assert ct[..n][..m] == ct[..m];
    assert pb[..n][..m] == pb[..m];
  }

  /** The bytes of pt after the ciphertext length survive all three phases. */
  lemma {:induction false} FrameAssembly(orig: seq<Byte>, pw: seq<Byte>, pb: seq<Byte>, pf: seq<Byte>,
                                         m: nat, n: nat, len: nat)
    requires m <= n <= len <= |orig| == |pw| == |pb| == |pf|
    requires pw[m..] == orig[m..] && pb[n..] == pw[n..] && pf[len..] == pb[len..]
    ensures pf[len..] == orig[len..]
  {
    assert pw[len..] == pw[m..][len - m..];
    assert orig[len..] == orig[m..][len - m..];
    assert pb[len..] == pb[n..][len - n..];
    assert pw[len..] == pw[n..][len - n..];
  }
}
