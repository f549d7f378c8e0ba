/** The sender's packets as the receiver reads them: the message a
    receiver delivers for each packet of a segmented message is the chunk
    the sender put in it, so delivering the packets of one message in
    order hands the message back to the upper layer. */
module RdtTransfer {
  import opened ChecksumTool
  import opened RdtStruct
  import opened RdtSender
  import opened RdtReceiver

  /** The receiver reads back the chunk the sender wrote into a packet. */
  lemma CarriedMessage(p: Packet, chunk: seq<Byte>)
    requires Carries(p, chunk)
    ensures MessageOf(p) == chunk
  {
  }

  /** The messages the receiver delivers for the packets of a segmented
      message are its chunks, and laid end to end they are the message. */
  lemma SegmentsDeliverMessage(segs: seq<Packet>, data: seq<Byte>, base: int)
    requires Segmentation(segs, data, base)
    ensures Messages(segs) == Chunks(data)
    ensures Concat(Messages(segs)) == data
  {
    var cs := Chunks(data);
    forall i | 0 <= i < |segs|
      ensures Messages(segs)[i] == cs[i]
    {
      assert CarriesAt(segs, cs, i);
      CarriedMessage(segs[i], cs[i]);
    }
    ChunksConcat(data);
  }
}
