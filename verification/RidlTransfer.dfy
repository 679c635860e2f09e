/** The ridl serializer and deserializer one after the other, over one buffer. */
module RidlTransfer {
  import opened Bytes
  import opened Buffers
  import opened Ridl
  import opened RidlProofs
  import opened RidlSerializer

  lemma Framed(before: bytes, enc: bytes, after: bytes)
    ensures var all := before + enc + after; all[|before|..|all|] == enc + after
  {
  }

  /** A value written behind others, and read back where it starts: the value, and what comes after it. */
  method SendAndReceive(t: Type, v: Value, before: bytes, after: bytes) returns (back: Value, left: bytes)
    requires Typed(t, v) && Fits(t, v)
    requires |before| + |Encode(t, v)| + |after| <= MAX_BYTES_PER_BUFFER
    ensures back == v && left == after
  {
    hide Buffer.Valid, Encode, Decode, Write, Typed, Sig, Fits;
    ghost var enc := Encode(t, v);
    WriteIsEncode(t, v);
    var buf := new Buffer(0);
    if before != [] {
      AppendBlock(buf, before);
    }
    assert buf.whole == before;
    var sent := SerialElem(buf, t, v, Sig(t));
    assert buf.whole == before + enc;
    if after != [] {
      AppendBlock(buf, after);
    }
    assert buf.whole == before + enc + after by {
      assert before + enc + [] == before + enc;
    }
    var _ := buf.SetOffset(|before|);
    Framed(before, enc, after);
    RoundTrip(t, v, after);
    var ret;
    ret, back := DeserialElem(buf, t, Sig(t));
    left := buf.Read();
  }
}
