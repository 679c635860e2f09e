/** The streaming SHA-1: octets come in pieces of any size, blocks are processed as they fill. */
module Sha1 {
  import opened Sha1Spec

  const WORD_LIMIT: int := 0x1_0000_0000

  /** Two shifts and an or are a rotation, for every count the source allows. */
  function CircularShift(n: nat, w: word): (r: word)
    requires 1 <= n <= 31
    ensures r == S(n, w)
  {
    hide Bits, FromBits, Rotate;
    FromBits(ShiftBits(n, Bits(w)))
  }

  function ShiftBits(n: nat, b: bits): (r: bits)
    requires 1 <= n <= 31
    ensures r == Rotate(n, b)
  {
    hide Rotate;
    ShiftIsRotate(n, b);
    (b << n) | (b >> (32 - n))
  }

  lemma ShiftIsRotate(n: nat, b: bits)
    requires 1 <= n <= 31
    ensures Rotate(n, b) == (b << n) | (b >> (32 - n))
  {
    hide Rotate;
    if n <= 6 {
      RotateUpTo6(n, b);
    } else if n <= 11 {
      RotateUpTo11(n, b);
    } else if n <= 15 {
      RotateUpTo15(n, b);
    } else if n <= 19 {
      RotateUpTo19(n, b);
    } else if n <= 24 {
      RotateUpTo24(n, b);
    } else {
      RotateUpTo31(n, b);
    }
  }

  lemma RotateUpTo6(n: nat, b: bits)
    requires 1 <= n <= 6
    ensures Rotate(n, b) == (b << n) | (b >> (32 - n))
  {
    assert Rotate(1, b) == (b << 1) | (b >> 31);
    assert Rotate(2, b) == (b << 2) | (b >> 30);
    assert Rotate(3, b) == (b << 3) | (b >> 29);
    assert Rotate(4, b) == (b << 4) | (b >> 28);
    assert Rotate(5, b) == (b << 5) | (b >> 27);
    assert Rotate(6, b) == (b << 6) | (b >> 26);
  }

  lemma RotateUpTo11(n: nat, b: bits)
    requires 7 <= n <= 11
    ensures Rotate(n, b) == (b << n) | (b >> (32 - n))
  {
    assert Rotate(7, b) == (b << 7) | (b >> 25);
    assert Rotate(8, b) == (b << 8) | (b >> 24);
    assert Rotate(9, b) == (b << 9) | (b >> 23);
    assert Rotate(10, b) == (b << 10) | (b >> 22);
    assert Rotate(11, b) == (b << 11) | (b >> 21);
  }

  lemma RotateUpTo15(n: nat, b: bits)
    requires 12 <= n <= 15
    ensures Rotate(n, b) == (b << n) | (b >> (32 - n))
  {
    assert Rotate(12, b) == (b << 12) | (b >> 20);
    assert Rotate(13, b) == (b << 13) | (b >> 19);
    assert Rotate(14, b) == (b << 14) | (b >> 18);
    assert Rotate(15, b) == (b << 15) | (b >> 17);
  }

  lemma RotateUpTo19(n: nat, b: bits)
    requires 16 <= n <= 19
    ensures Rotate(n, b) == (b << n) | (b >> (32 - n))
  {
    assert Rotate(16, b) == (b << 16) | (b >> 16);
    assert Rotate(17, b) == (b << 17) | (b >> 15);
    assert Rotate(18, b) == (b << 18) | (b >> 14);
    assert Rotate(19, b) == (b << 19) | (b >> 13);
  }

  lemma RotateUpTo24(n: nat, b: bits)
    requires 20 <= n <= 24
    ensures Rotate(n, b) == (b << n) | (b >> (32 - n))
  {
    assert Rotate(20, b) == (b << 20) | (b >> 12);
    assert Rotate(21, b) == (b << 21) | (b >> 11);
    assert Rotate(22, b) == (b << 22) | (b >> 10);
    assert Rotate(23, b) == (b << 23) | (b >> 9);
    assert Rotate(24, b) == (b << 24) | (b >> 8);
  }

  lemma RotateUpTo31(n: nat, b: bits)
    requires 25 <= n <= 31
    ensures Rotate(n, b) == (b << n) | (b >> (32 - n))
  {
    assert Rotate(25, b) == (b << 25) | (b >> 7);
    assert Rotate(26, b) == (b << 26) | (b >> 6);
    assert Rotate(27, b) == (b << 27) | (b >> 5);
    assert Rotate(28, b) == (b << 28) | (b >> 4);
    assert Rotate(29, b) == (b << 29) | (b >> 3);
    assert Rotate(30, b) == (b << 30) | (b >> 2);
    assert Rotate(31, b) == (b << 31) | (b >> 1);
  }

  class SHA1 {
    const H: array<word>
    const Message_Block: array<octet>
    var Message_Block_Index: nat
    var Length_Low: nat
    var Length_High: nat
    var Computed: bool
    var Corrupted: bool
    // the octets taken in since the last reset, and how many whole blocks of them are hashed
    ghost var msg: seq<octet>
    ghost var blocks: nat

    ghost predicate Shape()
      reads this
    {
      H.Length == 5 && Message_Block.Length == BLOCK_SIZE
    }

    ghost function Chain(): Regs
      requires Shape()
      reads this, H
    {
      Regs(H[0], H[1], H[2], H[3], H[4])
    }

    /** Whole blocks are hashed, the rest of the message waits in the block. */
    ghost predicate Filling()
      requires Shape()
      reads this, H, Message_Block
    {
      && |msg| == BLOCK_SIZE * blocks + Message_Block_Index && Message_Block_Index < BLOCK_SIZE
      && Message_Block[..Message_Block_Index] == msg[BLOCK_SIZE * blocks..]
      && Chain() == Hash(H0(), msg[..BLOCK_SIZE * blocks])
    }

    /** The state while octets come in. */
    ghost predicate Streaming()
      reads this, H, Message_Block
    {
      && Shape() && Filling() && !Corrupted && !Computed && |msg| < MESSAGE_LIMIT
      && Length_Low == 8 * |msg| % WORD_LIMIT && Length_High == 8 * |msg| / WORD_LIMIT
    }

    ghost predicate Valid()
      reads this, H, Message_Block
    {
      Shape() && (Corrupted || Streaming() || (Computed && Chain() == Digest(msg)))
    }

    constructor ()
      ensures Streaming() && Valid() && !Corrupted && !Computed
      ensures msg == [] && fresh(H) && fresh(Message_Block)
    {
      H := new word[5];
      Message_Block := new octet[64];
      Message_Block_Index, Length_Low, Length_High := 0, 0, 0;
      Computed, Corrupted := false, false;
      msg, blocks := [], 0;
      new;
      Reset();
    }

    method SetChain(r: Regs)
      requires Shape()
      modifies H
      ensures Chain() == r
    {
      H[0], H[1], H[2], H[3], H[4] := r.a, r.b, r.c, r.d, r.e;
    }

    /** Nothing taken in, and the initial values in the chain: a stream of no octets. */
    lemma EmptyStream()
      requires Shape() && !Corrupted && !Computed && msg == [] && Chain() == H0()
      requires blocks == Message_Block_Index == Length_Low == Length_High == 0
      ensures Streaming()
    {
      hide Hash, H0;
      HashNone(H0());
      assert msg[..0] == [];
    }

    method Reset()
      requires Shape()
      modifies this, H
      ensures Streaming() && msg == []
    {
      hide Streaming, H0;
      Length_Low, Length_High, Message_Block_Index := 0, 0, 0;
      SetChain(H0());
      Computed, Corrupted := false, false;
      msg, blocks := [], 0;
      EmptyStream();
    }

    /** Compresses the full block into the chaining values. */
    method ProcessMessageBlock()
      requires Shape()
      modifies this`Message_Block_Index, H
      ensures Chain() == Compress(old(Chain()), Message_Block[..]) && Message_Block_Index == 0
    {
      hide W, Rounds, Plus;
      var w := Schedule();
      var r := RunRounds(w, H[0], H[1], H[2], H[3], H[4]);
      SetChain(Regs(Plus(H[0], r.a), Plus(H[1], r.b), Plus(H[2], r.c), Plus(H[3], r.d), Plus(H[4], r.e)));
      Message_Block_Index := 0;
    }

    /** The word sequence of the block. */
    method Schedule() returns (w: array<word>)
      requires Shape()
      ensures fresh(w) && w.Length == 80
      ensures forall i :: 0 <= i < 80 ==> w[i] == W(Message_Block[..], i)
    {
      hide S, Pack, Xor, CircularShift;
      w := new word[80];
      var t := 0;
      while t < 16
        invariant 0 <= t <= 16
        invariant forall i :: 0 <= i < t ==> w[i] == W(Message_Block[..], i)
      {
        w[t] := Pack(Message_Block[t * 4], Message_Block[t * 4 + 1],
                     Message_Block[t * 4 + 2], Message_Block[t * 4 + 3]);
        t := t + 1;
      }
      while t < 80
        invariant 16 <= t <= 80
        invariant forall i :: 0 <= i < t ==> w[i] == W(Message_Block[..], i)
      {
        w[t] := CircularShift(1, Xor(w[t - 3], w[t - 8], w[t - 14], w[t - 16]));
        t := t + 1;
      }
    }

    /** The four loops of twenty turns. */
    method RunRounds(w: array<word>, h0: word, h1: word, h2: word, h3: word, h4: word) returns (r: Regs)
      requires Shape() && w.Length == 80
      requires forall i :: 0 <= i < 80 ==> w[i] == W(Message_Block[..], i)
      ensures r == Rounds(Message_Block[..], Regs(h0, h1, h2, h3, h4), TURNS)
    {
      hide S, W, Rounds, CircularShift, Choose, Parity, Majority, Plus5;
      ghost var block, h := Message_Block[..], Regs(h0, h1, h2, h3, h4);
      var A, B, C, D, E := h0, h1, h2, h3, h4;
      var t, temp := 0, 0;
      RoundsStep(block, h, 0);
      while t < 20
        invariant 0 <= t <= 20 && Regs(A, B, C, D, E) == Rounds(block, h, t)
      {
        RoundsStep(block, h, t);
        temp := Plus5(CircularShift(5, A), Choose(B, C, D), E, w[t], 0x5A827999);
        E, D, C, B, A := D, C, CircularShift(30, B), A, temp;
        t := t + 1;
      }
      while t < 40
        invariant 20 <= t <= 40 && Regs(A, B, C, D, E) == Rounds(block, h, t)
      {
        RoundsStep(block, h, t);
        temp := Plus5(CircularShift(5, A), Parity(B, C, D), E, w[t], 0x6ED9EBA1);
        E, D, C, B, A := D, C, CircularShift(30, B), A, temp;
        t := t + 1;
      }
      while t < 60
        invariant 40 <= t <= 60 && Regs(A, B, C, D, E) == Rounds(block, h, t)
      {
        RoundsStep(block, h, t);
        temp := Plus5(CircularShift(5, A), Majority(B, C, D), E, w[t], 0x8F1BBCDC);
        E, D, C, B, A := D, C, CircularShift(30, B), A, temp;
        t := t + 1;
      }
      while t < 80
        invariant 60 <= t <= 80 && Regs(A, B, C, D, E) == Rounds(block, h, t)
      {
        RoundsStep(block, h, t);
        temp := Plus5(CircularShift(5, A), Parity(B, C, D), E, w[t], 0xCA62C1D6);
        E, D, C, B, A := D, C, CircularShift(30, B), A, temp;
        t := t + 1;
      }
      r := Regs(A, B, C, D, E);
    }

    /** Some more octets. Past the length limit, or after a result, the object is spoiled. */
    method Input(octets: seq<octet>)
      requires Valid()
      modifies this, H, Message_Block
      ensures Valid()
      ensures |octets| == 0 ==> msg == old(msg) && Corrupted == old(Corrupted) && Computed == old(Computed)
      ensures |octets| > 0 ==>
                Corrupted == (old(Computed) || old(Corrupted) || |old(msg)| + |octets| >= MESSAGE_LIMIT)
      ensures !Corrupted ==> msg == old(msg) + octets && Computed == old(Computed)
    {
      hide Filling, Hash, Digest, Chain;
      if |octets| == 0 {
        return;
      }
      if Computed || Corrupted {
        Corrupted := true;
        return;
      }
      var i := 0;
      while i < |octets| && !Corrupted
        invariant 0 <= i <= |octets|
        invariant !Corrupted ==> Streaming() && msg == old(msg) + octets[..i] && |old(msg)| + i < MESSAGE_LIMIT
        invariant Corrupted ==> Shape() && |old(msg)| + i >= MESSAGE_LIMIT
      {
        InputOctet(octets[i]);
        assert old(msg) + octets[..i] + [octets[i]] == old(msg) + octets[..i + 1];
        i := i + 1;
      }
      assert octets[..|octets|] == octets;
    }

    /** One turn of the input loop. */
    method InputOctet(o: octet)
      requires Streaming()
      modifies this, H, Message_Block
      ensures Corrupted == (|old(msg)| + 1 >= MESSAGE_LIMIT)
      ensures Shape() && (!Corrupted ==> Streaming() && msg == old(msg) + [o])
    {
      hide Hash, Digest, Compress, H0;
      StoreOctet(o);
      CountOctet();
    }

    /** The two length words, with their carry. */
    method CountOctet()
      requires 0 < |msg| <= MESSAGE_LIMIT && !Corrupted
      requires Length_Low == 8 * (|msg| - 1) % WORD_LIMIT && Length_High == 8 * (|msg| - 1) / WORD_LIMIT
      modifies this`Length_Low, this`Length_High, this`Corrupted
      ensures Corrupted == (|msg| == MESSAGE_LIMIT)
      ensures !Corrupted ==> Length_Low == 8 * |msg| % WORD_LIMIT && Length_High == 8 * |msg| / WORD_LIMIT
    {
      Length_Low := (Length_Low + 8) % WORD_LIMIT;
      if Length_Low == 0 {
        Length_High := (Length_High + 1) % WORD_LIMIT;
        if Length_High == 0 {
          Corrupted := true;
        }
      }
    }

    /** The block takes one octet, and is processed when it is full. */
    method StoreOctet(o: octet)
      requires Shape() && Filling()
      modifies this`msg, this`blocks, this`Message_Block_Index, H, Message_Block
      ensures Filling() && msg == old(msg) + [o]
    {
      hide Hash, Compress, H0;
      ghost var done := msg[..BLOCK_SIZE * blocks];
      Message_Block[Message_Block_Index] := o;
      Message_Block_Index := Message_Block_Index + 1;
      msg := msg + [o];
      assert msg == done + Message_Block[..Message_Block_Index];
      assert msg[..BLOCK_SIZE * blocks] == done;
      if Message_Block_Index == 64 {
        HashBlock(H0(), done, blocks, Message_Block[..]);
        assert Message_Block[..64] == Message_Block[..];
        ProcessMessageBlock();
        blocks := blocks + 1;
        assert msg[..|msg|] == msg;
      }
    }

    /** The loops that fill the block with zeros. */
    method FillZeros(upTo: nat)
      requires Shape() && Message_Block_Index <= upTo <= BLOCK_SIZE
      modifies this`Message_Block_Index, Message_Block
      ensures Message_Block_Index == upTo
      ensures Message_Block[..upTo]
           == old(Message_Block[..Message_Block_Index]) + Zeros(upTo - old(Message_Block_Index))
    {
      ghost var from := Message_Block_Index;
      while Message_Block_Index < upTo
        invariant from <= Message_Block_Index <= upTo
        invariant Message_Block[..from] == old(Message_Block[..from])
        invariant forall i :: from <= i < Message_Block_Index ==> Message_Block[i] == 0
      {
        Message_Block[Message_Block_Index] := 0;
        Message_Block_Index := Message_Block_Index + 1;
      }
    }

    /** The last eight octets: the length, high word first. */
    method StoreLength()
      requires Shape() && Length_Low == 8 * |msg| % WORD_LIMIT && Length_High == 8 * |msg| / WORD_LIMIT
      modifies Message_Block
      ensures Message_Block[..] == old(Message_Block[..56]) + LengthField(8 * |msg|)
    {
      hide Octet, LengthField;
      LengthFieldOfWords(8 * |msg|);
      Message_Block[56] := Octet(Length_High / 0x100_0000);
      Message_Block[57] := Octet(Length_High / 0x1_0000);
      Message_Block[58] := Octet(Length_High / 0x100);
      Message_Block[59] := Octet(Length_High);
      Message_Block[60] := Octet(Length_Low / 0x100_0000);
      Message_Block[61] := Octet(Length_Low / 0x1_0000);
      Message_Block[62] := Octet(Length_Low / 0x100);
      Message_Block[63] := Octet(Length_Low);
      assert Message_Block[..56] == old(Message_Block[..56]);
      assert Message_Block[..] == Message_Block[..56] + Message_Block[56..];
    }

    /** The one bit, then zeros. */
    method MarkEnd(upTo: nat)
      requires Shape() && Message_Block_Index < upTo <= BLOCK_SIZE
      modifies this`Message_Block_Index, Message_Block
      ensures Message_Block_Index == upTo
      ensures var i := old(Message_Block_Index);
              Message_Block[..upTo] == old(Message_Block[..i]) + [0x80] + Zeros(upTo - i - 1)
    {
      hide Zeros;
      ghost var i, tail := Message_Block_Index, Message_Block[..Message_Block_Index];
      Message_Block[Message_Block_Index] := 0x80;
      Message_Block_Index := Message_Block_Index + 1;
      assert Message_Block[..i + 1] == tail + [0x80];
      FillZeros(upTo);
    }

    /** Pads the message and hashes what is left of it. */
    method PadMessage()
      requires Streaming()
      modifies this`Message_Block_Index, H, Message_Block
      ensures Chain() == Digest(msg)
    {
      hide Hash, Compress, LengthField, Pad, Zeros, H0, ZeroCount;
      ghost var index, n := Message_Block_Index, blocks;
      ghost var done, tail := msg[..BLOCK_SIZE * n], msg[BLOCK_SIZE * n..];
      PadSplit(msg, n, index);
      if Message_Block_Index > 55 {
        MarkEnd(64);
        ghost var first := tail + [0x80] + Zeros(63 - index);
        assert Message_Block[..] == Message_Block[..64] == first;
        HashBlock(H0(), done, n, first);
        ProcessMessageBlock();
        FillZeros(56);
        assert Message_Block[..56] == Zeros(56);
        done, n := done + first, n + 1;
      } else {
        MarkEnd(56);
      }
      ghost var last := Message_Block[..56] + LengthField(8 * |msg|);
      assert Pad(msg) == done + last;
      HashBlock(H0(), done, n, last);
      StoreLength();
      ProcessMessageBlock();
    }

    /** The digest of everything taken in; asking again gives the same answer. */
    method Result() returns (ok: bool, digest: Regs)
      requires Valid()
      modifies this, H, Message_Block
      ensures Valid() && msg == old(msg) && Corrupted == old(Corrupted)
      ensures ok == !Corrupted
      ensures ok ==> Computed && digest == Digest(msg)
    {
      hide Hash, Digest, H0;
      digest := H0();
      if Corrupted {
        return false, digest;
      }
      if !Computed {
        PadMessage();
        Computed := true;
      }
      return true, Regs(H[0], H[1], H[2], H[3], H[4]);
    }
  }

  function Concat(pieces: seq<seq<octet>>): seq<octet> {
    if pieces == [] then [] else pieces[0] + Concat(pieces[1..])
  }

  /** What is still to come, one piece further on; `done` is what came before. */
  lemma NextPiece(pieces: seq<seq<octet>>, i: nat, done: seq<octet>)
    requires i <= |pieces|
    ensures i == 0 ==> Concat(pieces[i..]) == Concat(pieces)
    ensures i == |pieces| ==> done + Concat(pieces[i..]) == done
    ensures i < |pieces| ==> done + Concat(pieces[i..]) == done + pieces[i] + Concat(pieces[i + 1..])
  {
    if i == 0 {
      assert pieces[i..] == pieces;
    }
    if i < |pieces| {
      assert pieces[i..][0] == pieces[i] && pieces[i..][1..] == pieces[i + 1..];
    }
  }

  /** However a message is cut into pieces, and however often the result is asked for, the digest is its own. */
  method DigestOfPieces(pieces: seq<seq<octet>>) returns (first: (bool, Regs), second: (bool, Regs))
    ensures |Concat(pieces)| < MESSAGE_LIMIT ==> first == (true, Digest(Concat(pieces)))
    ensures |Concat(pieces)| >= MESSAGE_LIMIT ==> !first.0
    ensures second.0 == first.0 && (first.0 ==> second == first)
  {
    hide Hash, Digest, H0, Concat, SHA1.Valid, SHA1.Streaming;
    var sha := new SHA1();
    NextPiece(pieces, 0, []);
    var i := 0;
    while i < |pieces|
      invariant 0 <= i <= |pieces|
      invariant sha.Valid() && (sha.Corrupted || !sha.Computed)
      invariant fresh(sha) && fresh(sha.H) && fresh(sha.Message_Block)
      invariant !sha.Corrupted ==> Concat(pieces) == sha.msg + Concat(pieces[i..]) && |sha.msg| < MESSAGE_LIMIT
      invariant sha.Corrupted ==> |Concat(pieces)| >= MESSAGE_LIMIT
    {
      NextPiece(pieces, i, sha.msg);
      sha.Input(pieces[i]);
      i := i + 1;
    }
    NextPiece(pieces, i, sha.msg);
    var ok, digest := sha.Result();
    first := (ok, digest);
    ok, digest := sha.Result();
    second := (ok, digest);
  }
}
