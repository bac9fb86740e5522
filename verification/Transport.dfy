/** Data frames over a byte stream: what the replication protocol takes for a FIFO of
    frames is what the header codec and the incremental reader provide. */
module Transport {
  import opened Bytes
  import opened Framing
  import opened FrameReader
  import opened DataFrames

  function MessageOf(mblkId: nat, f: DataFrame): Message {
    DataMessage(Header(0, f.isDelta, f.compressed, f.complete, false, mblkId, f.addr), f.payload)
  }

  /** ioc_process_received_data_frame: the frame handed to the target buffer. */
  function FrameOf(d: Decoded): DataFrame {
    DataFrame(d.header.addr, d.data, d.header.compressed, d.header.isDelta, d.header.complete)
  }

  function MessagesOf(mblkId: nat, fs: seq<DataFrame>): (ms: seq<Message>)
    ensures |ms| == |fs|
  {
    seq(|fs|, i requires 0 <= i < |fs| => MessageOf(mblkId, fs[i]))
  }

  /** The bytes received are, frame by frame, the data frames sent. */
  ghost predicate Conveys(serial: bool, mblkId: nat, got: seq<seq<byte>>, fs: seq<DataFrame>) {
    && |got| <= |fs|
    && forall i :: 0 <= i < |got| ==>
         && |got[i]| > FixedSize(serial) && |got[i]| == RxNeeded(serial, got[i])
         && FrameOf(Decode(serial, got[i])) == fs[i]
         && Decode(serial, got[i]).header.mblkId == mblkId && !Decode(serial, got[i]).header.system
  }

  lemma {:induction false} EncodedConveys(serial: bool, frameSz: nat, sum: Checksum, nr: byte, ms: seq<Message>, i: nat)
    requires forall j :: 0 <= j < |ms| ==> Sendable(serial, frameSz, ms[j])
    requires nr as int <= MAX_FRAME_NR && i < |ms| && ms[i].DataMessage?
    ensures var s := EncodeAll(serial, frameSz, sum, nr, ms)[i];
            && |s| > FixedSize(serial) && |s| == RxNeeded(serial, s)
            && Decode(serial, s) == Decoded(ms[i].header.(nr := Decode(serial, s).header.nr), ms[i].data)
    decreases |ms|
  {
    hide Encode, Decode, RxNeeded, ChecksumOk;
    if i == 0 {
      EncodedDataDecodes(serial, frameSz, sum, nr, ms[0].header, ms[0].data);
    } else {
      EncodedConveys(serial, frameSz, sum, SenderNrAfter(nr, ms[0]), ms[1..], i - 1);
    }
  }

  /** Any frames which fit, sent over a stream that splits reads in any way,
      reach the receiver in order and unchanged: after any number of calls it
      has got exactly a beginning of them, and after enough fruitful calls all. */
  lemma FramesCross(serial: bool, frameSz: nat, sum: Checksum, nr: byte, mblkId: nat, fs: seq<DataFrame>, polls: seq<seq<nat>>)
    requires forall i :: 0 <= i < |fs| ==> Sendable(serial, frameSz, MessageOf(mblkId, fs[i]))
    requires nr as int <= MAX_FRAME_NR
    ensures InFrame(serial, frameSz, [])
    ensures var frames := EncodeAll(serial, frameSz, sum, nr, MessagesOf(mblkId, fs));
            var s := PollAll(serial, frameSz, nr, [], Concat(frames), polls);
            && s.ok && Conveys(serial, mblkId, s.got, fs)
            && (s.buf == [] && s.input == [] ==> |s.got| == |fs|)
            && (Deliveries(polls) >= |Concat(frames)| ==> |s.got| == |fs|)
  {
    hide PollAll, Decode, RxNeeded, Sendable, Encode, EncodeAll;
    var ms := MessagesOf(mblkId, fs);
    MessagesArrive(serial, frameSz, sum, nr, ms, polls);
    var frames := EncodeAll(serial, frameSz, sum, nr, ms);
    var s := PollAll(serial, frameSz, nr, [], Concat(frames), polls);
    forall i | 0 <= i < |s.got|
      ensures && |s.got[i]| > FixedSize(serial) && |s.got[i]| == RxNeeded(serial, s.got[i])
              && FrameOf(Decode(serial, s.got[i])) == fs[i]
              && Decode(serial, s.got[i]).header.mblkId == mblkId && !Decode(serial, s.got[i]).header.system
    {
      EncodedConveys(serial, frameSz, sum, nr, ms, i);
    }
    if s.buf == [] && s.input == [] && |s.got| < |fs| {
      assert Concat(frames[|s.got|..]) == [];
      NonEmptyConcat(serial, frameSz, sum, nr, ms, |s.got|);
    }
  }

  lemma NonEmptyConcat(serial: bool, frameSz: nat, sum: Checksum, nr: byte, ms: seq<Message>, k: nat)
    requires forall j :: 0 <= j < |ms| ==> Sendable(serial, frameSz, ms[j])
    requires nr as int <= MAX_FRAME_NR && k < |ms|
    ensures Concat(EncodeAll(serial, frameSz, sum, nr, ms)[k..]) != []
  {
    hide Encode, Sendable;
    var frames := EncodeAll(serial, frameSz, sum, nr, ms);
    FramesNonEmpty(serial, frameSz, sum, nr, ms, k);
    assert frames[k..][0] == frames[k];
  }

  lemma {:induction false} FramesNonEmpty(serial: bool, frameSz: nat, sum: Checksum, nr: byte, ms: seq<Message>, k: nat)
    requires forall j :: 0 <= j < |ms| ==> Sendable(serial, frameSz, ms[j])
    requires k < |ms|
    ensures EncodeAll(serial, frameSz, sum, nr, ms)[k] != []
    decreases |ms|
  {
    hide Encode, Sendable;
    if k > 0 {
      FramesNonEmpty(serial, frameSz, sum, SenderNrAfter(nr, ms[0]), ms[1..], k - 1);
    }
  }
}
