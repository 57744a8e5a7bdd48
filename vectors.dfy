/** Known answers of SipHash-2-4 for the key 00 01 .. 0f: the empty message
    (the first entry of the test-vector table of the reference
    implementation) and the 15-byte message 00 01 .. 0e (the worked example
    of appendix A of the SipHash paper). */
module SipHashVectors {
  import opened LittleEndian
  import opened Word64
  import opened SipHashSpec

  /** The key 00 01 02 .. 0f. */
  const TestKey: seq<byte> := [0, 1, 2, 3, 4, 5, 6, 7, 8, 9, 10, 11, 12, 13, 14, 15]

  /** The message 00 01 02 .. 0e. */
  const TestMessage: seq<byte> := [0, 1, 2, 3, 4, 5, 6, 7, 8, 9, 10, 11, 12, 13, 14]

  /** Bytes 00 .. 07 read little-endian. */
  lemma LowWord()
    ensures LoadLE([0, 1, 2, 3, 4, 5, 6, 7]) == 0x0706050403020100
  {
    LoadLEExplicit([0, 1, 2, 3, 4, 5, 6, 7]);
  }

  /** Bytes 08 .. 0f read little-endian. */
  lemma HighWord()
    ensures LoadLE([8, 9, 10, 11, 12, 13, 14, 15]) == 0x0f0e0d0c0b0a0908
  {
    LoadLEExplicit([8, 9, 10, 11, 12, 13, 14, 15]);
  }

  /** The key schedule for the test key. */
  lemma TestInitial()
    ensures Initial(TestKey) ==
      State(0x7469686173716475, 0x6b617f6d656e6665, 0x6b7f62616d677361, 0x7b6b696e727e6c7b)
  {
    assert TestKey[0..8] == [0, 1, 2, 3, 4, 5, 6, 7];
    assert TestKey[8..16] == [8, 9, 10, 11, 12, 13, 14, 15];
    LowWord();
    HighWord();
  }

  /** Empty message: its only word is the final word 0: absorbing 0x0000000000000000. */
  lemma EmptyCompress0()
    ensures Compress(State(0x7469686173716475, 0x6b617f6d656e6665, 0x6b7f62616d677361, 0x7b6b696e727e6c7b), 0x0000000000000000) ==
      State(0x75126fd44af190b6, 0x084235164f06142b, 0x37b04f9f8026831d, 0x1b4678cde8253231)
  {
  }

  /** Empty message: the finalisation. */
  lemma EmptyFinalize()
    ensures Finalize(State(0x75126fd44af190b6, 0x084235164f06142b, 0x37b04f9f8026831d, 0x1b4678cde8253231)) == 0x726fdb47dd0e0e31
  {
  }

  /** 15-byte message: its one complete block: absorbing 0x0706050403020100. */
  lemma FifteenCompress0()
    ensures Compress(State(0x7469686173716475, 0x6b617f6d656e6665, 0x6b7f62616d677361, 0x7b6b696e727e6c7b), 0x0706050403020100) ==
      State(0x4a017198de0a59e0, 0x0d52f6f62a4f59a4, 0x634cb3577b01fd3d, 0xa5224d6f55c7d9c8)
  {
  }

  /** 15-byte message: the final word, bytes 08 .. 0e and the length 15: absorbing 0x0f0e0d0c0b0a0908. */
  lemma FifteenCompress1()
    ensures Compress(State(0x4a017198de0a59e0, 0x0d52f6f62a4f59a4, 0x634cb3577b01fd3d, 0xa5224d6f55c7d9c8), 0x0f0e0d0c0b0a0908) ==
      State(0x3c85b3ab6f55be51, 0x414fc3fb98efe374, 0xccf13ea527b9f4bd, 0x5293f5da84008f82)
  {
  }

  /** 15-byte message: the finalisation. */
  lemma FifteenFinalize()
    ensures Finalize(State(0x3c85b3ab6f55be51, 0x414fc3fb98efe374, 0xccf13ea527b9f4bd, 0x5293f5da84008f82)) == 0xa129ca6149be45e5
  {
  }


  /** The empty message has no complete block and the final word 0. */
  lemma EmptyMessageWords()
    ensures Blocks([]) == []
    ensures TailWord([]) == 0
  {
    assert LengthByte(0) == 0;
    TailWordAligned([]);
  }

  /** The 15-byte message has the one complete block 00 .. 07. */
  lemma TestMessageBlocks()
    ensures Blocks(TestMessage) == [0x0706050403020100]
  {
    assert TestMessage[0..8] == [0, 1, 2, 3, 4, 5, 6, 7];
    LowWord();
  }

  /** The final word of the 15-byte message: bytes 08 .. 0e, then the
      length 15 in the top byte. */
  lemma TestMessageTailWord()
    ensures TailWord(TestMessage) == 0x0f0e0d0c0b0a0908
  {
    assert LengthByte(15) == 15;
    assert Tail(TestMessage) == [8, 9, 10, 11, 12, 13, 14];
    assert FinalBlock(TestMessage) == [8, 9, 10, 11, 12, 13, 14, 15];
    HighWord();
  }

  /** The block loop over the 15-byte message. */
  lemma FifteenAbsorb()
    ensures Absorb(Initial(TestKey), Blocks(TestMessage)) ==
      State(0x4a017198de0a59e0, 0x0d52f6f62a4f59a4, 0x634cb3577b01fd3d, 0xa5224d6f55c7d9c8)
  {
    var s0 := State(0x7469686173716475, 0x6b617f6d656e6665, 0x6b7f62616d677361, 0x7b6b696e727e6c7b);
    TestInitial();
    TestMessageBlocks();
    FifteenCompress0();
    assert Absorb(s0, [0x0706050403020100]) == Absorb(Compress(s0, 0x0706050403020100), []);
  }

  /** The empty message. */
  lemma EmptyMessageVector()
    ensures SipHash([], TestKey) == 0x726fdb47dd0e0e31
  {
    var s0 := State(0x7469686173716475, 0x6b617f6d656e6665, 0x6b7f62616d677361, 0x7b6b696e727e6c7b);
    var s1 := State(0x75126fd44af190b6, 0x084235164f06142b, 0x37b04f9f8026831d, 0x1b4678cde8253231);
    TestInitial();
    EmptyMessageWords();
    EmptyCompress0();
    SipHashStages([], TestKey, s0, 0, s1);
    EmptyFinalize();
  }

  /** The 15-byte message: one complete block and seven tail bytes. */
  lemma FifteenByteVector()
    ensures SipHash(TestMessage, TestKey) == 0xa129ca6149be45e5
  {
    var s1 := State(0x4a017198de0a59e0, 0x0d52f6f62a4f59a4, 0x634cb3577b01fd3d, 0xa5224d6f55c7d9c8);
    var s2 := State(0x3c85b3ab6f55be51, 0x414fc3fb98efe374, 0xccf13ea527b9f4bd, 0x5293f5da84008f82);
    TestMessageTailWord();
    FifteenAbsorb();
    FifteenCompress1();
    SipHashStages(TestMessage, TestKey, s1, 0x0f0e0d0c0b0a0908, s2);
    FifteenFinalize();
  }
}
