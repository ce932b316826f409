/** HChaCha on the rows of its state, in place, for any machine that rotates and moves lanes. */
module HChaChaRows {
  import opened ChaChaRounds
  import opened LaneShuffles

  /** The state of section 2.2 of draft-irtf-cfrg-xchacha: constants, key and nonce. */
  function InitialState<W, B>(b: Bytes<W, B>, constants: Vec<W>, key: seq<B>, nonce: seq<B>): (s: seq<W>)
    requires |key| == 32 && |nonce| == 16
    ensures |s| == 16
  {
    [constants.a, constants.b, constants.c, constants.d]
    + [b.WordAt(key, 0), b.WordAt(key, 1), b.WordAt(key, 2), b.WordAt(key, 3)]
    + [b.WordAt(key, 4), b.WordAt(key, 5), b.WordAt(key, 6), b.WordAt(key, 7)]
    + [b.WordAt(nonce, 0), b.WordAt(nonce, 1), b.WordAt(nonce, 2), b.WordAt(nonce, 3)]
  }

  /** Ten double rounds, of which the first and the last four words are kept. */
  function Hash<W(!new), B>(o: Ops<W>, b: Bytes<W, B>, constants: Vec<W>, key: seq<B>, nonce: seq<B>): seq<B>
    requires |key| == 32 && |nonce| == 16
  {
    var s := DoubleRounds(o, InitialState(b, constants, key, nonce), 10);
    b.OfRow(Vec(s[0], s[1], s[2], s[3])) + b.OfRow(Vec(s[12], s[13], s[14], s[15]))
  }

  function RowsOf<W>(s: seq<Vec<W>>): Rows<W>
    requires |s| == 4
  {
    Rows(s[0], s[1], s[2], s[3])
  }

  lemma RowsInWords<W>(s: Rows<W>)
    ensures var w := Words(s);
            s.r0 == Vec(w[0], w[1], w[2], w[3]) && s.r3 == Vec(w[12], w[13], w[14], w[15])
  {}

  method RoundInPlace<W(!new)>(m: Machine<W>, state: array<Vec<W>>)
    requires state.Length == 4
    modifies state
    ensures RowsOf(state[..]) == Round(m, old(RowsOf(state[..])))
  {
    var w := m.words;
    state[0] := Add(w, state[0], state[1]);
    state[3] := Xor(w, state[3], state[0]);
    state[3] := m.rotate(state[3], 16);

    state[2] := Add(w, state[2], state[3]);
    state[1] := Xor(w, state[1], state[2]);
    state[1] := m.rotate(state[1], 12);

    state[0] := Add(w, state[0], state[1]);
    state[3] := Xor(w, state[3], state[0]);
    state[3] := m.rotate(state[3], 8);

    state[2] := Add(w, state[2], state[3]);
    state[1] := Xor(w, state[1], state[2]);
    state[1] := m.rotate(state[1], 7);
  }

  method ShuffleInPlace<W(!new)>(m: Machine<W>, state: array<Vec<W>>)
    requires state.Length == 4
    modifies state
    ensures RowsOf(state[..]) == Shuffle(m, old(RowsOf(state[..])))
  {
    state[0] := m.shuffleLeft(state[0], 1);
    state[1] := m.shuffleLeft(state[1], 2);
    state[2] := m.shuffleLeft(state[2], 3);
  }

  method UnshuffleInPlace<W(!new)>(m: Machine<W>, state: array<Vec<W>>)
    requires state.Length == 4
    modifies state
    ensures RowsOf(state[..]) == Unshuffle(m, old(RowsOf(state[..])))
  {
    state[0] := m.ShuffleRight(state[0], 1);
    state[1] := m.ShuffleRight(state[1], 2);
    state[2] := m.ShuffleRight(state[2], 3);
  }

  /** Two rounds on the rows are one double round on the words. */
  method RoundPairInPlace<W(!new)>(m: Machine<W>, state: array<Vec<W>>)
    requires state.Length == 4 && m.Lawful()
    modifies state
    ensures Words(RowsOf(state[..])) == DoubleRound(m.words, old(Words(RowsOf(state[..]))))
  {
    ghost var s := RowsOf(state[..]);
    RoundInPlace(m, state);
    ShuffleInPlace(m, state);
    RoundInPlace(m, state);
    UnshuffleInPlace(m, state);
    RoundPairIsDoubleRound(m, s);
  }

  method TenRoundPairs<W(!new)>(m: Machine<W>, state: array<Vec<W>>)
    requires state.Length == 4 && m.Lawful()
    modifies state
    ensures Words(RowsOf(state[..])) == DoubleRounds(m.words, old(Words(RowsOf(state[..]))), 10)
  {
    ghost var s := Words(RowsOf(state[..]));
    for i := 0 to 10
      invariant Words(RowsOf(state[..])) == DoubleRounds(m.words, s, i)
    {
      RoundPairInPlace(m, state);
    }
  }

  method LoadState<W(0,!new), B>(b: Bytes<W, B>, constants: Vec<W>, key: seq<B>, nonce: seq<B>)
    returns (state: array<Vec<W>>)
    requires |key| == 32 && |nonce| == 16
    ensures fresh(state) && state.Length == 4
    ensures Words(RowsOf(state[..])) == InitialState(b, constants, key, nonce)
  {
    var key0 := LoadLe(b, key[..16]);
    var key1 := LoadLe(b, key[16..]);
    var row3 := LoadLe(b, nonce);
    state := new Vec<W>[] [constants, key0, key1, row3];
  }

  method StoreRows<W, B(0)>(b: Bytes<W, B>, first: Vec<W>, last: Vec<W>) returns (bytes: seq<B>)
    ensures bytes == b.OfRow(first) + b.OfRow(last)
  {
    var out := new B[32];
    StoreLe(b, first, out, 0);
    StoreLe(b, last, out, 16);
    bytes := out[..];
  }

  method HashRows<W(0,!new), B(0)>(m: Machine<W>, b: Bytes<W, B>, constants: Vec<W>, key: seq<B>, nonce: seq<B>)
    returns (bytes: seq<B>)
    requires |key| == 32 && |nonce| == 16 && m.Lawful()
    ensures bytes == Hash(m.words, b, constants, key, nonce)
  {
    var state := LoadState(b, constants, key, nonce);
    TenRoundPairs(m, state);
    RowsInWords(RowsOf(state[..]));
    bytes := StoreRows(b, state[0], state[3]);
  }
}
