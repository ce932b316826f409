/** What the word operations come to on actual words, and the known answers of the standards. */
module HChaChaVectors {
  import opened ChaChaRounds
  import opened LaneShuffles
  import opened HChaChaRows
  import opened HChaCha

  // ----- the operations on words -----

  /** Addition is modulo 2^32. */
  lemma AddMeaning(x: Word, y: Word)
    ensures Words32().add(x, y) == x + y
  {}

  /** Exclusive or: a bit is set if it is set in one of the two words and not in the other. */
  lemma XorMeaning(x: Word, y: Word)
    ensures Words32().xor(x, y) == (x | y) & !(x & y)
  {}

  /** The example of section 2.1.1 of RFC 8439. */
  lemma QuarterRoundVector()
    ensures QuarterRound(Words32(), Vec(0x11111111, 0x01020304, 0x9b8d6f43, 0x01234567))
         == Vec(0xea2a92f4, 0xcb1cf8ce, 0x4581472e, 0x5881c4bb)
  {}

  // ----- rounds by halves -----

  /** Half of a quarter round. */
  ghost predicate IsHalf<W(!new)>(o: Ops<W>, q: Vec<W>, r: Vec<W>, m: Amount, n: Amount) {
    && r.a == o.add(q.a, q.b) && r.d == o.rotl(o.xor(q.d, r.a), m)
    && r.c == o.add(q.c, r.d) && r.b == o.rotl(o.xor(q.b, r.c), n)
  }

  lemma HalvesMakeQuarterRound<W(!new)>(o: Ops<W>, q: Vec<W>, half: Vec<W>, r: Vec<W>)
    requires IsHalf(o, q, half, 16, 12) && IsHalf(o, half, r, 8, 7)
    ensures QuarterRound(o, q) == r
  {}

  /** Half of a round on the four columns. */
  ghost predicate ColumnHalves<W(!new)>(o: Ops<W>, s: Rows<W>, t: Rows<W>, m: Amount, n: Amount) {
    && IsHalf(o, Vec(s.r0.a, s.r1.a, s.r2.a, s.r3.a), Vec(t.r0.a, t.r1.a, t.r2.a, t.r3.a), m, n)
    && IsHalf(o, Vec(s.r0.b, s.r1.b, s.r2.b, s.r3.b), Vec(t.r0.b, t.r1.b, t.r2.b, t.r3.b), m, n)
    && IsHalf(o, Vec(s.r0.c, s.r1.c, s.r2.c, s.r3.c), Vec(t.r0.c, t.r1.c, t.r2.c, t.r3.c), m, n)
    && IsHalf(o, Vec(s.r0.d, s.r1.d, s.r2.d, s.r3.d), Vec(t.r0.d, t.r1.d, t.r2.d, t.r3.d), m, n)
  }

  /** Half of a round on the four diagonals. */
  ghost predicate DiagonalHalves<W(!new)>(o: Ops<W>, s: Rows<W>, t: Rows<W>, m: Amount, n: Amount) {
    && IsHalf(o, Vec(s.r0.a, s.r1.b, s.r2.c, s.r3.d), Vec(t.r0.a, t.r1.b, t.r2.c, t.r3.d), m, n)
    && IsHalf(o, Vec(s.r0.b, s.r1.c, s.r2.d, s.r3.a), Vec(t.r0.b, t.r1.c, t.r2.d, t.r3.a), m, n)
    && IsHalf(o, Vec(s.r0.c, s.r1.d, s.r2.a, s.r3.b), Vec(t.r0.c, t.r1.d, t.r2.a, t.r3.b), m, n)
    && IsHalf(o, Vec(s.r0.d, s.r1.a, s.r2.b, s.r3.c), Vec(t.r0.d, t.r1.a, t.r2.b, t.r3.c), m, n)
  }

  lemma HalvesMakeColumnRound<W(!new)>(o: Ops<W>, s: Rows<W>, h: Rows<W>, t: Rows<W>)
    requires ColumnHalves(o, s, h, 16, 12) && ColumnHalves(o, h, t, 8, 7)
    ensures ColumnRound(o, Words(s)) == Words(t)
  {
    HalvesMakeQuarterRound(o, Vec(s.r0.a, s.r1.a, s.r2.a, s.r3.a), Vec(h.r0.a, h.r1.a, h.r2.a, h.r3.a),
                              Vec(t.r0.a, t.r1.a, t.r2.a, t.r3.a));
    HalvesMakeQuarterRound(o, Vec(s.r0.b, s.r1.b, s.r2.b, s.r3.b), Vec(h.r0.b, h.r1.b, h.r2.b, h.r3.b),
                              Vec(t.r0.b, t.r1.b, t.r2.b, t.r3.b));
    HalvesMakeQuarterRound(o, Vec(s.r0.c, s.r1.c, s.r2.c, s.r3.c), Vec(h.r0.c, h.r1.c, h.r2.c, h.r3.c),
                              Vec(t.r0.c, t.r1.c, t.r2.c, t.r3.c));
    HalvesMakeQuarterRound(o, Vec(s.r0.d, s.r1.d, s.r2.d, s.r3.d), Vec(h.r0.d, h.r1.d, h.r2.d, h.r3.d),
                              Vec(t.r0.d, t.r1.d, t.r2.d, t.r3.d));
  }

  lemma HalvesMakeDiagonalRound<W(!new)>(o: Ops<W>, s: Rows<W>, h: Rows<W>, t: Rows<W>)
    requires DiagonalHalves(o, s, h, 16, 12) && DiagonalHalves(o, h, t, 8, 7)
    ensures DiagonalRound(o, Words(s)) == Words(t)
  {
    HalvesMakeQuarterRound(o, Vec(s.r0.a, s.r1.b, s.r2.c, s.r3.d), Vec(h.r0.a, h.r1.b, h.r2.c, h.r3.d),
                              Vec(t.r0.a, t.r1.b, t.r2.c, t.r3.d));
    HalvesMakeQuarterRound(o, Vec(s.r0.b, s.r1.c, s.r2.d, s.r3.a), Vec(h.r0.b, h.r1.c, h.r2.d, h.r3.a),
                              Vec(t.r0.b, t.r1.c, t.r2.d, t.r3.a));
    HalvesMakeQuarterRound(o, Vec(s.r0.c, s.r1.d, s.r2.a, s.r3.b), Vec(h.r0.c, h.r1.d, h.r2.a, h.r3.b),
                              Vec(t.r0.c, t.r1.d, t.r2.a, t.r3.b));
    HalvesMakeQuarterRound(o, Vec(s.r0.d, s.r1.a, s.r2.b, s.r3.c), Vec(h.r0.d, h.r1.a, h.r2.b, h.r3.c),
                              Vec(t.r0.d, t.r1.a, t.r2.b, t.r3.c));
  }

  // ----- the example of section 2.2.1 of draft-irtf-cfrg-xchacha -----

  function Key(): (k: seq<Octet>)
    ensures |k| == 32
  {
    [0x00, 0x01, 0x02, 0x03, 0x04, 0x05, 0x06, 0x07, 0x08, 0x09, 0x0a, 0x0b, 0x0c, 0x0d, 0x0e, 0x0f]
    + [0x10, 0x11, 0x12, 0x13, 0x14, 0x15, 0x16, 0x17, 0x18, 0x19, 0x1a, 0x1b, 0x1c, 0x1d, 0x1e, 0x1f]
  }

  function Nonce(): (n: seq<Octet>)
    ensures |n| == 16
  {
    [0x00, 0x00, 0x00, 0x09, 0x00, 0x00, 0x00, 0x4a, 0x00, 0x00, 0x00, 0x00, 0x31, 0x41, 0x59, 0x27]
  }

  /** A state, word by word. */
  function State(a0: Word, b0: Word, c0: Word, d0: Word, a1: Word, b1: Word, c1: Word, d1: Word,
                 a2: Word, b2: Word, c2: Word, d2: Word, a3: Word, b3: Word, c3: Word, d3: Word): Rows<Word>
  {
    Rows(Vec(a0, b0, c0, d0), Vec(a1, b1, c1, d1), Vec(a2, b2, c2, d2), Vec(a3, b3, c3, d3))
  }

  function After0(): Rows<Word> {
    State(0x61707865, 0x3320646e, 0x79622d32, 0x6b206574, 0x03020100, 0x07060504, 0x0b0a0908, 0x0f0e0d0c,
     0x13121110, 0x17161514, 0x1b1a1918, 0x1f1e1d1c, 0x09000000, 0x4a000000, 0x00000000, 0x27594131)
  }

  function After1(): Rows<Word> {
    State(0xbc6aa25c, 0x222a51ea, 0x6db4fbdf, 0x91a8685c, 0xdf42d865, 0x54dcfe98, 0x4e4abd1b, 0xbea9f4bd,
     0x9c46ad47, 0xd8aa5185, 0xdfd450df, 0x6c04a635, 0x0fcf2ec5, 0x5821cc4b, 0x8e7fb35b, 0x19352ba2)
  }

  function After2(): Rows<Word> {
    State(0x7bc434f3, 0x6a045b3d, 0xa9b6a717, 0xe97301f1, 0x61ba01e7, 0x8d245f4b, 0x33708154, 0xd31e1023,
     0x3af18a5b, 0xb644b533, 0xfd66db41, 0x51e9ad3a, 0xc424874b, 0x61d36895, 0xe9ff651a, 0x923c81f0)
  }

  function After3(): Rows<Word> {
    State(0x67a35fad, 0x585f0adc, 0x663c0005, 0xf94d5581, 0x7659ac4a, 0xe411f655, 0x8c1d6f08, 0xfaa59e59,
     0x1ec99b8b, 0xcafe73b8, 0x980ced44, 0x8f490851, 0x3246f7d6, 0x429c278a, 0x4d34dd2b, 0xa97b2c6a)
  }

  function After4(): Rows<Word> {
    State(0x8e19d568, 0x4f94b2fa, 0xe2e6b081, 0xe3471ee3, 0x5d8dc91e, 0xe4843060, 0x7c532d54, 0x9ad42044,
     0x0b30ba63, 0x4f1b068a, 0x83ad7706, 0xc3e09f4c, 0xa664c0c1, 0x3292fc5b, 0xa73c703f, 0x7137a6f4)
  }

  function After5(): Rows<Word> {
    State(0x47bb21d5, 0xb7f02c03, 0x135fd2b1, 0xf6ff0b9d, 0xfbceb81c, 0x48ef0aee, 0x736b8aa9, 0xadc9c8f8,
     0x65e41e3f, 0x5f4696bc, 0xe6c323c9, 0x89b85fe7, 0xfc6c1619, 0xf12a89a8, 0xb52ab4be, 0x2c04b16f)
  }

  function After6(): Rows<Word> {
    State(0x9f53c98b, 0x87372c3c, 0x8995494b, 0x2939b691, 0xaa53ec91, 0xa64cd8c6, 0x591beafb, 0x1a9dbfe2,
     0x0c5e96dd, 0x153f5501, 0x83e50579, 0xad694245, 0x82fb0b27, 0x9479489b, 0x3ef1765e, 0xff752502)
  }

  function After7(): Rows<Word> {
    State(0xe2923c58, 0x8ae7914b, 0x43655e14, 0xb7e7c817, 0xbdf05275, 0x3124c65e, 0x9a0e3a11, 0xaff2b7f1,
     0x73916698, 0xe101c5c5, 0x438035ba, 0x974fb4cb, 0xa9f7045f, 0x7e28b6c7, 0x7d825401, 0x9674b5e4)
  }

  function After8(): Rows<Word> {
    State(0x7b893f75, 0xfcb39b21, 0x0797b1bf, 0x5f9ec3b3, 0x4e0f0bd5, 0xafa77b58, 0xea5562e0, 0xd7ac0abe,
     0x6990c3af, 0x435ab730, 0xd68d7249, 0x16696500, 0xb0162333, 0x553ccfa7, 0x13cbe911, 0xdbbab6cc)
  }

  function After9(): Rows<Word> {
    State(0x1d06d50a, 0x991811a2, 0x85560883, 0xecffb3f9, 0x6c243901, 0x4f477f04, 0x3705019f, 0x195f0632,
     0x51b6c1b2, 0xe42275d7, 0xad06f9e7, 0xd1865b84, 0x7fac8475, 0xc6e8c540, 0xd8eaa578, 0x425f0994)
  }

  function After10(): Rows<Word> {
    State(0xd1de186c, 0xb0c7b93c, 0xd078df04, 0x660e0112, 0x67e36bdb, 0xac30ed15, 0xbd9ed3dd, 0x7851b2cd,
     0xab33732a, 0xba25d2cf, 0x4ed7a584, 0x5bd1985c, 0xf3168d27, 0x8d87591b, 0x8c80db2f, 0x44367d8c)
  }

  function After11(): Rows<Word> {
    State(0xaf1f317e, 0x618e57a5, 0x45d41334, 0x26603906, 0xe9254820, 0xb167dc3c, 0x85958a32, 0xe413c50a,
     0x348fe7a7, 0x7df77eec, 0xd2b74b47, 0x5dc8a2ad, 0x7ffba9a6, 0xc486da9e, 0x1a11a32c, 0x33a36fe8)
  }

  function After12(): Rows<Word> {
    State(0x44ac8600, 0xe23f5411, 0x5ae80570, 0x5d4f85b8, 0x2de236d4, 0xfddd6beb, 0x0e3b8a87, 0x8c65a958,
     0x8018e660, 0xe591c0ff, 0x33dec291, 0xf507052f, 0x4eccc9aa, 0x48e81158, 0x45902c7f, 0xfed52426)
  }

  function After13(): Rows<Word> {
    State(0xc3d62a5b, 0x903e469a, 0x3f7fcd8c, 0x7512a7d5, 0x7528efe6, 0x82af57cf, 0x8a09ba8c, 0xd8556457,
     0x9dad3c58, 0x2f24d831, 0xcf482ee0, 0x24edd20d, 0xa81619b6, 0x9aee6e3e, 0xf7e13f9c, 0x24b0b57e)
  }

  function After14(): Rows<Word> {
    State(0x82f32a6d, 0x8e367c9d, 0x12b17440, 0x1bda71e1, 0x9375cc72, 0xc4a0c4c8, 0xd199bb4b, 0x2c035ec8,
     0x6a8444e0, 0xd4b831be, 0xade4e9ca, 0xe44d4801, 0xa6cec396, 0x6cf97b4d, 0xfd6c3bb3, 0xa74858b5)
  }

  function After15(): Rows<Word> {
    State(0x9a0837aa, 0x5d898e09, 0x2fe6d0c3, 0xdf43b4af, 0x65217f31, 0x116dfbdd, 0xbea30a75, 0x6dc375ae,
     0xe1550235, 0xb0909753, 0xa0e6e72c, 0xcbbe62ed, 0x41870caf, 0xa1b02767, 0xdec9e43b, 0x5f543a57)
  }

  function After16(): Rows<Word> {
    State(0x4d7f6f44, 0xe8db7660, 0x2268596b, 0x195222b4, 0x64520ce3, 0x2d3d17fc, 0x0aa8fb53, 0x375eb422,
     0xc0d0af92, 0x12244acd, 0x5a534192, 0x6abb8c14, 0x0a2bcb7c, 0x7e657143, 0x89b818ce, 0xaf9b6644)
  }

  function After17(): Rows<Word> {
    State(0x98486dee, 0x0063f223, 0xdee7df84, 0x54a2a997, 0x3a473e35, 0xcab8c733, 0xf4cc85c7, 0x2a4d7124,
     0x8c027fbb, 0x8dde1249, 0x3e3f13cd, 0x4ba54823, 0x13d6142f, 0x7c9a5eff, 0x977b2d92, 0x3056bce4)
  }

  function After18(): Rows<Word> {
    State(0x2d02a54c, 0x6fdd5da4, 0x517a3ba9, 0x4048cdf3, 0x2735a16f, 0xfdf971a2, 0x454a57d9, 0xf1886447,
     0xc7a7fbc9, 0x6f108d65, 0x8ffa82c8, 0xc8267115, 0x18bb420c, 0x2d4e065f, 0x16d4618a, 0xc7f61ba4)
  }

  function After19(): Rows<Word> {
    State(0x02ca8571, 0x799ccba3, 0x2c14aff6, 0x0208e23e, 0x5d827272, 0x387af85b, 0xb17ae105, 0xf71831ab,
     0x4a293a52, 0xbdb509ad, 0x9e32e9b6, 0x87d98067, 0x7dc9f206, 0x858b3bb0, 0x1c2fe6de, 0x9614192b)
  }

  function After20(): Rows<Word> {
    State(0x423b4182, 0xfe7bb227, 0x50420ed3, 0x737d878a, 0x0aa76448, 0x7954cdf3, 0x846acd37, 0x7b3c58ad,
     0x77e35583, 0x83e77c12, 0xe0076a2d, 0xbc6cd0e5, 0xd5e4f9a0, 0x53a8748a, 0x13c42ec1, 0xdcecd326)
  }

  lemma Round0()
    ensures ColumnRound(Words32(), Words(After0())) == Words(After1())
  {
    var half := State(0x64727965, 0x3a266972, 0x846c363a, 0x7a2e7280, 0x57f828f7, 0xe803e878, 0xe948c5a5, 0x1779f5dc,
                 0x8c777e82, 0x8088853a, 0x51549d84, 0x52cf7a93, 0x79656d72, 0x69727026, 0x363a846c, 0x33b15d77);
    HalvesMakeColumnRound(Words32(), After0(), half, After1());
  }

  lemma Round1()
    ensures DiagonalRound(Words32(), Words(After1())) == Words(After2())
  {
    var half := State(0x1147a0f4, 0x70750f05, 0x2c5ef09c, 0x70eb40c1, 0x7887c130, 0x6a7c93ff, 0xf98f4c38, 0x7d57b67b,
                 0xd91e21c6, 0xcc455019, 0x6b2a5951, 0x8dc525ef, 0x21c07fba, 0x3cd7747f, 0xf39afe94, 0x8b560872);
    HalvesMakeDiagonalRound(Words32(), After1(), half, After2());
  }

  lemma Round2()
    ensures ColumnRound(Words32(), Words(After2())) == Words(After3())
  {
    var half := State(0xdd7e36da, 0xf728ba88, 0xdd27286b, 0xbc911214, 0x8a2528d3, 0x61365054, 0x8914d79a, 0x3cbc436d,
                 0xec82a3b5, 0x88624c2e, 0x4ad81019, 0xe5cddbe7, 0xb191195a, 0xd21d96fb, 0x4d7134d8, 0x93e42ead);
    HalvesMakeColumnRound(Words32(), After2(), half, After3());
  }

  lemma Round3()
    ensures DiagonalRound(Words32(), Words(After3())) == Words(After4())
  {
    var half := State(0x4bb55602, 0xe47c79e4, 0x60e19e5e, 0x6fa701cb, 0x73a01d18, 0x42647f66, 0x6b183916, 0x82051223,
                 0xd89dbe08, 0xa7de964b, 0x1275d012, 0x1d7bde8b, 0x8e32d63a, 0xb9d4227d, 0xdce02293, 0x7a68e2ce);
    HalvesMakeDiagonalRound(Words32(), After3(), half, After4());
  }

  lemma Round4()
    ensures ColumnRound(Words32(), Words(After4())) == Words(After5())
  {
    var half := State(0xeba79e86, 0x3418e35a, 0x5f39ddd5, 0x7e1b3f27, 0x5c13834f, 0x83d748a9, 0xb425f4dc, 0x78e3cc76,
                 0x69780826, 0x6e1c0d14, 0x31986f0b, 0x5db3ae78, 0x5e474dc3, 0x1f01068a, 0xadeaf805, 0x99d30f2c);
    HalvesMakeColumnRound(Words32(), After4(), half, After5());
  }

  lemma Round5()
    ensures DiagonalRound(Words32(), Words(After5())) == Words(After6())
  {
    var half := State(0x90aa2cc3, 0x2b5bb6ac, 0xc1299ba9, 0xf2cdc3b9, 0x366bf2d8, 0x0ea99cc8, 0x5bdb7590, 0xc86bada2,
                 0x77e54e42, 0xd64ddea3, 0x846fe077, 0x2a6e371e, 0xa0b5d737, 0x12013003, 0x770747e7, 0x9dacbcae);
    HalvesMakeDiagonalRound(Words32(), After5(), half, After6());
  }

  lemma Round6()
    ensures ColumnRound(Words32(), Words(After6())) == Words(After7())
  {
    var half := State(0x49a7b61c, 0x2d840502, 0xe2b13446, 0x43d77673, 0x98ea863c, 0x5d638c49, 0x60b429ce, 0x741051a4,
                 0xc99a6239, 0x62d90efe, 0xc5fde1b9, 0x00dafee7, 0xbd3bcb5c, 0x4d99b9fd, 0x4218dc40, 0x5371bca2);
    HalvesMakeColumnRound(Words32(), After6(), half, After7());
  }

  lemma Round7()
    ensures DiagonalRound(Words32(), Words(After7())) == Words(After8())
  {
    var half := State(0x13b702b6, 0x24f5cb5c, 0xf3581605, 0x75d81a8c, 0xe9c6a927, 0x67d23cbf, 0xd7bdcfc5, 0x143f9bba,
                 0x1453f408, 0x2f8ece1f, 0xfad2bb7d, 0x665341cd, 0xcf038d02, 0xa0c28d70, 0x4e8d085a, 0xb75285c3);
    HalvesMakeDiagonalRound(Words32(), After7(), half, After8());
  }

  lemma Round8()
    ensures ColumnRound(Words32(), Words(After8())) == Words(After9())
  {
    var half := State(0xc9984b4a, 0xac5b1679, 0xf1ed149f, 0x374ace71, 0x536e89c0, 0xecbcfb29, 0x9368f3e4, 0xb5b4e588,
                 0xd20a3d3d, 0x1d39b097, 0xd41c546f, 0x8f2751f0, 0x6879798e, 0xd9def967, 0xfd8ee226, 0x78bdecf0);
    HalvesMakeColumnRound(Words32(), After8(), half, After9());
  }

  lemma Round9()
    ensures DiagonalRound(Words32(), Words(After9())) == Words(After10())
  {
    var half := State(0x6c4e540e, 0xd01d1341, 0x9eb50eb5, 0x5923ecfa, 0x0cea1418, 0x658fc45e, 0xe0aaa5fb, 0x31c3d04f,
                 0x1dac1a0f, 0x2da4f7a0, 0x0aa127f8, 0x68bb0b35, 0x9734afb1, 0xcbf5585d, 0x498281c9, 0x5d9a2e11);
    HalvesMakeDiagonalRound(Words32(), After9(), half, After10());
  }

  lemma Round10()
    ensures ColumnRound(Words32(), Words(After10())) == Words(After11())
  {
    var half := State(0x39c18447, 0x5cf8a651, 0x8e17b2e1, 0xde5fb3df, 0x755dad37, 0x0495b154, 0xb7bc6053, 0x48008527,
                 0xb4943e01, 0xb970a44e, 0xb8a5a81b, 0x2a2532c5, 0x0960cad7, 0xff4ad17f, 0x69ce0297, 0xce539a69);
    HalvesMakeColumnRound(Words32(), After10(), half, After11());
  }

  lemma Round11()
    ensures DiagonalRound(Words32(), Words(After11())) == Words(After12())
  {
    var half := State(0x60870dba, 0xe723e1d7, 0x29e7d83e, 0x0f858126, 0x4dca0492, 0xe4257846, 0xfb1b723a, 0x31002d32,
                 0x3730d508, 0xa0019480, 0x35099e6b, 0xa63a3b85, 0x487198d8, 0x02a0ed61, 0x220a1594, 0x62525324);
    HalvesMakeDiagonalRound(Words32(), After11(), half, After12());
  }

  lemma Round12()
    ensures ColumnRound(Words32(), Words(After12())) == Words(After13())
  {
    var half := State(0x728ebcd4, 0xe01cbffc, 0x69238ff7, 0xe9b52f10, 0x51476d87, 0xb021869e, 0xd65c3d95, 0x8b5d78c5,
                 0xf59722a2, 0x943669f3, 0xd766ef44, 0x003d1c8f, 0x757e3c42, 0xaea4a8f4, 0xa3882cb3, 0x0b361760);
    HalvesMakeColumnRound(Words32(), After12(), half, After13());
  }

  lemma Round13()
    ensures DiagonalRound(Words32(), Words(After13())) == Words(After14())
  {
    var half := State(0x4685822a, 0x1a480126, 0x17d531e3, 0xea3b97bb, 0x319eda26, 0x3c6da843, 0x73ee7b77, 0xfadc425d,
                 0xfd8ac993, 0xd74bf60b, 0x069c9115, 0x3d7e846b, 0x1890b25e, 0x5fdd8d3b, 0xa8271dda, 0x37546235);
    HalvesMakeDiagonalRound(Words32(), After13(), half, After14());
  }

  lemma Round14()
    ensures ColumnRound(Words32(), Words(After14())) == Words(After15())
  {
    var half := State(0x1668f6df, 0x52d74165, 0xe44b2f8b, 0x47ddd0a9, 0x839f40cb, 0x0ab24ca4, 0x4b9ba138, 0x9765e406,
                 0x9fcdf586, 0x0ee06fec, 0xc21d02f1, 0x6c6a2896, 0x3549b0a6, 0x3a283e2e, 0x14381927, 0x881ce095);
    HalvesMakeColumnRound(Words32(), After14(), half, After15());
  }

  lemma Round15()
    ensures DiagonalRound(Words32(), Words(After15())) == Words(After16())
  {
    var half := State(0xab763387, 0x1c2c987e, 0x9daa4671, 0x446533e0, 0xd4eceed4, 0xa2093bbd, 0xccaedde2, 0x84be12fa,
                 0x426b3e4f, 0x886c31ff, 0xaab7db4e, 0x608fc098, 0x94d15dab, 0x61163c1a, 0xd7db9aac, 0x09d0f422);
    HalvesMakeDiagonalRound(Words32(), After15(), half, After16());
  }

  lemma Round16()
    ensures ColumnRound(Words32(), Words(After16())) == Words(After17())
  {
    var half := State(0xb1d17c27, 0x16188e5c, 0x2d1154be, 0x50b0d6d6, 0xe676f1c7, 0xea4b63c7, 0xb1d68ac6, 0x03f1d2c1,
                 0x782c6b8c, 0x1143b34a, 0xa6c3e63b, 0x1b4e8b3f, 0xb75bbbfa, 0xff1f687d, 0x4c70a4a9, 0xb092ff2b);
    HalvesMakeColumnRound(Words32(), After16(), half, After17());
  }

  lemma Round17()
    ensures DiagonalRound(Words32(), Words(After17())) == Words(After18())
  {
    var half := State(0x63013521, 0xf53077ea, 0x093550a8, 0x8ee9e7cc, 0xb15ee627, 0xca01702b, 0x7aace5ba, 0x4844eb01,
                 0x9a59f56a, 0x583c2bdb, 0xc8046724, 0xaf6b2f09, 0x63c5e6e6, 0x0e5775af, 0xca5e1992, 0x89c55357);
    HalvesMakeDiagonalRound(Words32(), After17(), half, After18());
  }

  lemma Round18()
    ensures ColumnRound(Words32(), Words(After18())) == Words(After19())
  {
    var half := State(0x543846bb, 0x6dd6cf46, 0x96c49382, 0x31d1323a, 0xae923eb6, 0x0bc5fc5d, 0x95501c74, 0xd037b004,
                 0xcc5f484c, 0x3829cdfd, 0x820302d8, 0xf1c5673c, 0x04b74c83, 0xc9194098, 0xf2088010, 0x299ef627);
    HalvesMakeColumnRound(Words32(), After18(), half, After19());
  }

  lemma Round19()
    ensures DiagonalRound(Words32(), Words(After19())) == Words(After20())
  {
    var half := State(0x3b457dcc, 0x2b17aca8, 0x232ce1a1, 0x5f8b54b0, 0x13f232da, 0x06f5c3b6, 0xd364057f, 0x2d152d32,
                 0x243ae0f9, 0x70234d51, 0x031a9707, 0xe687d745, 0x5eae56de, 0xda11a6a7, 0xb26e43a4, 0x64e7ad51);
    HalvesMakeDiagonalRound(Words32(), After19(), half, After20());
  }

  /** How a word is read. */
  lemma WordFrom(s: seq<Octet>, i: nat, a: Octet, b: Octet, c: Octet, d: Octet, w: Word)
    requires 4 * i + 4 <= |s| && s[4 * i] == a && s[4 * i + 1] == b && s[4 * i + 2] == c && s[4 * i + 3] == d
    requires FromLe(a, b, c, d) == w
    ensures BytesOf().WordAt(s, i) == w
  {}

  lemma FirstKeyWords()
    ensures var b := BytesOf();
      && b.WordAt(Key(), 0) == 0x03020100 && b.WordAt(Key(), 1) == 0x07060504
      && b.WordAt(Key(), 2) == 0x0b0a0908 && b.WordAt(Key(), 3) == 0x0f0e0d0c
  {
    WordFrom(Key(), 0, 0x00, 0x01, 0x02, 0x03, 0x03020100);
    WordFrom(Key(), 1, 0x04, 0x05, 0x06, 0x07, 0x07060504);
    WordFrom(Key(), 2, 0x08, 0x09, 0x0a, 0x0b, 0x0b0a0908);
    WordFrom(Key(), 3, 0x0c, 0x0d, 0x0e, 0x0f, 0x0f0e0d0c);
  }

  lemma LastKeyWords()
    ensures var b := BytesOf();
      && b.WordAt(Key(), 4) == 0x13121110 && b.WordAt(Key(), 5) == 0x17161514
      && b.WordAt(Key(), 6) == 0x1b1a1918 && b.WordAt(Key(), 7) == 0x1f1e1d1c
  {
    WordFrom(Key(), 4, 0x10, 0x11, 0x12, 0x13, 0x13121110);
    WordFrom(Key(), 5, 0x14, 0x15, 0x16, 0x17, 0x17161514);
    WordFrom(Key(), 6, 0x18, 0x19, 0x1a, 0x1b, 0x1b1a1918);
    WordFrom(Key(), 7, 0x1c, 0x1d, 0x1e, 0x1f, 0x1f1e1d1c);
  }

  lemma NonceWords()
    ensures var b := BytesOf();
      && b.WordAt(Nonce(), 0) == 0x09000000 && b.WordAt(Nonce(), 1) == 0x4a000000
      && b.WordAt(Nonce(), 2) == 0x00000000 && b.WordAt(Nonce(), 3) == 0x27594131
  {
    WordFrom(Nonce(), 0, 0x00, 0x00, 0x00, 0x09, 0x09000000);
    WordFrom(Nonce(), 1, 0x00, 0x00, 0x00, 0x4a, 0x4a000000);
    WordFrom(Nonce(), 2, 0x00, 0x00, 0x00, 0x00, 0x00000000);
    WordFrom(Nonce(), 3, 0x31, 0x41, 0x59, 0x27, 0x27594131);
  }

  lemma KnownStart()
    ensures InitialState(BytesOf(), Constants(), Key(), Nonce()) == Words(After0())
  {
    FirstKeyWords();
    LastKeyWords();
    NonceWords();
  }

  lemma Extended<W(!new)>(o: Ops<W>, s: seq<W>, n: nat, t: Rows<W>, u: Rows<W>, v: Rows<W>)
    requires |s| == 16 && DoubleRounds(o, s, n) == Words(t)
    requires ColumnRound(o, Words(t)) == Words(u) && DiagonalRound(o, Words(u)) == Words(v)
    ensures DoubleRounds(o, s, n + 1) == Words(v)
  {}

  // The ten double rounds, in two parts.

  lemma FirstRounds()
    ensures DoubleRounds(Words32(), Words(After0()), 5) == Words(After10())
  {
    var o, s := Words32(), Words(After0());
    Round0();
    Round1();
    Extended(o, s, 0, After0(), After1(), After2());
    Round2();
    Round3();
    Extended(o, s, 1, After2(), After3(), After4());
    Round4();
    Round5();
    Extended(o, s, 2, After4(), After5(), After6());
    Round6();
    Round7();
    Extended(o, s, 3, After6(), After7(), After8());
    Round8();
    Round9();
    Extended(o, s, 4, After8(), After9(), After10());
  }

  lemma KnownRounds()
    ensures DoubleRounds(Words32(), Words(After0()), 10) == Words(After20())
  {
    FirstRounds();
    var o, s := Words32(), Words(After0());
    Round10();
    Round11();
    Extended(o, s, 5, After10(), After11(), After12());
    Round12();
    Round13();
    Extended(o, s, 6, After12(), After13(), After14());
    Round14();
    Round15();
    Extended(o, s, 7, After14(), After15(), After16());
    Round16();
    Round17();
    Extended(o, s, 8, After16(), After17(), After18());
    Round18();
    Round19();
    Extended(o, s, 9, After18(), After19(), After20());
  }

  lemma HashFrom<W(!new), B>(o: Ops<W>, b: Bytes<W, B>, constants: Vec<W>, key: seq<B>, nonce: seq<B>,
                             s: Rows<W>, t: Rows<W>)
    requires |key| == 32 && |nonce| == 16
    requires InitialState(b, constants, key, nonce) == Words(s) && DoubleRounds(o, Words(s), 10) == Words(t)
    ensures Hash(o, b, constants, key, nonce) == b.OfRow(t.r0) + b.OfRow(t.r3)
  {
    RowsInWords(t);
  }

  lemma KnownBytes()
    ensures BytesOf().OfRow(After20().r0) + BytesOf().OfRow(After20().r3)
         == [0x82, 0x41, 0x3b, 0x42, 0x27, 0xb2, 0x7b, 0xfe, 0xd3, 0x0e, 0x42, 0x50, 0x8a, 0x87, 0x7d, 0x73,
             0xa0, 0xf9, 0xe4, 0xd5, 0x8a, 0x74, 0xa8, 0x53, 0xc1, 0x2e, 0xc4, 0x13, 0x26, 0xd3, 0xec, 0xdc]
  {}

  /** The repository's own test vector. */
  lemma KnownAnswer()
    ensures Reference(Key(), Nonce())
         == [0x82, 0x41, 0x3b, 0x42, 0x27, 0xb2, 0x7b, 0xfe, 0xd3, 0x0e, 0x42, 0x50, 0x8a, 0x87, 0x7d, 0x73,
             0xa0, 0xf9, 0xe4, 0xd5, 0x8a, 0x74, 0xa8, 0x53, 0xc1, 0x2e, 0xc4, 0x13, 0x26, 0xd3, 0xec, 0xdc]
  {
    KnownStart();
    KnownRounds();
    HashFrom(Words32(), BytesOf(), Constants(), Key(), Nonce(), After0(), After20());
    KnownBytes();
  }
}
