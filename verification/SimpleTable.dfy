/** The reference routing table: one hash table of masked addresses for each prefix length in
    use, searched linearly from the longest. It keeps the same map as the trie and gives the
    same answers. */
module SimpleTable {
  import opened Bits
  import opened Wrappers
  import PT = PrefixTree
  import Trie = IpLookupTrie

  datatype Row<T> = Row(len: nat, table: map<Word, T>)

  function MaskWithPrefix(a: Word, prefix: nat): Word
    requires prefix <= |a|
  {
    And(a, if prefix == 0 then Zero(|a|) else ShiftLeft(MaxValue(|a|), |a| - prefix))
  }

  // ----- the rows as a map of prefixes -----

  ghost predicate Sorted<T>(vec: seq<Row<T>>) {
    forall i, j :: 0 <= i < j < |vec| ==> vec[i].len < vec[j].len
  }

  /** Every address in the row is masked and stands for a prefix in `m`. */
  ghost predicate RowHolds<T>(w: nat, r: Row<T>, m: map<Word, T>) {
    r.len <= w && forall k :: k in r.table ==> EntryHolds(w, r, m, k)
  }

  ghost predicate EntryHolds<T>(w: nat, r: Row<T>, m: map<Word, T>, k: Word)
    requires k in r.table && r.len <= w
  {
    |k| == w && k == Pad(w, k[..r.len]) && Get(m, k[..r.len]) == Some(r.table[k])
  }

  ghost predicate StoredIn<T>(w: nat, r: Row<T>, q: Word) {
    |q| <= w && r.len == |q| && Pad(w, q) in r.table
  }

  ghost predicate Stored<T>(w: nat, vec: seq<Row<T>>, q: Word) {
    exists i :: 0 <= i < |vec| && StoredIn(w, vec[i], q)
  }

  /** The rows store exactly the prefixes of `m`, with their values. */
  ghost predicate Represents<T>(w: nat, vec: seq<Row<T>>, m: map<Word, T>) {
    && Sorted(vec)
    && (forall i :: 0 <= i < |vec| ==> RowHolds(w, vec[i], m))
    && (forall q :: q in m ==> Stored(w, vec, q))
  }

  ghost predicate Used<T>(r: Row<T>) {
    r.table != map[]
  }

  /** Every row, except perhaps row `i`, has an entry. */
  ghost predicate UsedExcept<T>(vec: seq<Row<T>>, i: int) {
    forall j {:trigger Used(vec[j])} :: 0 <= j < |vec| && j != i ==> Used(vec[j])
  }

  lemma WithoutKey<K, V>(m: map<K, V>, k: K)
    ensures Get(m - {k}, k).None?
    ensures forall x :: x != k ==> Get(m - {k}, x) == Get(m, x)
  {}

  lemma UnpadPad(w: nat, q: Word)
    requires |q| <= w
    ensures Pad(w, q)[..|q|] == q && |Pad(w, q)| == w
  {}

  /** A padded prefix is in the row of its length exactly when the prefix is stored. */
  lemma RowAnswers<T>(w: nat, vec: seq<Row<T>>, m: map<Word, T>, i: nat, q: Word)
    requires Represents(w, vec, m) && i < |vec| && vec[i].len == |q| <= w
    ensures Get(vec[i].table, Pad(w, q)) == Get(m, q)
  {
    UnpadPad(w, q);
    if Pad(w, q) in vec[i].table {
      assert RowHolds(w, vec[i], m) && EntryHolds(w, vec[i], m, Pad(w, q));
    }
    if q in m {
      assert Stored(w, vec, q);
    }
  }

  /** `long` is `short` with one more row, at `i`. */
  ghost predicate OneMoreRow<T>(short: seq<Row<T>>, long: seq<Row<T>>, i: nat) {
    && |long| == |short| + 1 && i <= |short|
    && (forall j :: 0 <= j < i ==> long[j] == short[j])
    && (forall j :: i < j < |long| ==> long[j] == short[j - 1])
  }

  lemma StoredElsewhere<T>(w: nat, short: seq<Row<T>>, long: seq<Row<T>>, i: nat, q: Word)
    requires OneMoreRow(short, long, i)
    ensures Stored(w, long, q) <==> Stored(w, short, q) || StoredIn(w, long[i], q)
  {
    if j :| 0 <= j < |short| && StoredIn(w, short[j], q) {
      assert long[if j < i then j else j + 1] == short[j];
    }
    if j :| 0 <= j < |long| && j != i && StoredIn(w, long[j], q) {
      assert long[j] == short[if j < i then j else j - 1];
    }
  }

  lemma AddEmptyRow<T>(w: nat, short: seq<Row<T>>, long: seq<Row<T>>, m: map<Word, T>, i: nat, len: nat)
    requires Represents(w, short, m) && OneMoreRow(short, long, i)
    requires long[i] == Row(len, map[]) && len <= w
    requires forall j :: 0 <= j < i ==> short[j].len < len
    requires forall j :: i <= j < |short| ==> len < short[j].len
    ensures Represents(w, long, m)
  {
    forall q | q in m ensures Stored(w, long, q) {
      StoredElsewhere(w, short, long, i, q);
    }
    forall j | 0 <= j < |long| ensures RowHolds(w, long[j], m) {
      assert j != i ==> long[j] == short[if j < i then j else j - 1];
    }
    SortedWithRow(short, long, i);
  }

  lemma SortedWithRow<T>(short: seq<Row<T>>, long: seq<Row<T>>, i: nat)
    requires Sorted(short) && OneMoreRow(short, long, i)
    requires forall j :: 0 <= j < i ==> short[j].len < long[i].len
    requires forall j :: i <= j < |short| ==> long[i].len < short[j].len
    ensures Sorted(long)
  {
    forall j, k | 0 <= j < k < |long| ensures long[j].len < long[k].len {
      assert j != i ==> long[j] == short[if j < i then j else j - 1];
      assert k != i ==> long[k] == short[if k < i then k else k - 1];
    }
  }

  lemma SortedWithoutRow<T>(short: seq<Row<T>>, long: seq<Row<T>>, i: nat)
    requires Sorted(long) && OneMoreRow(short, long, i)
    ensures Sorted(short)
  {
    forall j, k | 0 <= j < k < |short| ensures short[j].len < short[k].len {
      var j', k' := if j < i then j else j + 1, if k < i then k else k + 1;
      assert short[j] == long[j'] && short[k] == long[k'] && j' < k';
    }
  }

  lemma RemoveEmptyRow<T>(w: nat, short: seq<Row<T>>, long: seq<Row<T>>, m: map<Word, T>, i: nat)
    requires Represents(w, long, m) && OneMoreRow(short, long, i) && long[i].table == map[]
    ensures Represents(w, short, m)
  {
    SortedWithoutRow(short, long, i);
    forall q | q in m ensures Stored(w, short, q) {
      assert Stored(w, long, q);
      StoredElsewhere(w, short, long, i, q);
    }
    forall j | 0 <= j < |short| ensures RowHolds(w, short[j], m) {
      var j' := if j < i then j else j + 1;
      assert short[j] == long[j'] && RowHolds(w, long[j'], m);
    }
  }

  /** Row `t` of length `|q|` and map `m'` arise from `r` and `m` by a change at `q` alone. */
  ghost predicate ChangedAt<T>(w: nat, r: Row<T>, m: map<Word, T>, q: Word, t: map<Word, T>, m': map<Word, T>) {
    && r.len == |q| <= w
    && (forall k :: k != Pad(w, q) ==> Get(t, k) == Get(r.table, k))
    && (forall x :: x != q ==> Get(m', x) == Get(m, x))
    && Get(t, Pad(w, q)) == Get(m', q)
  }

  lemma ChangedStored<T>(w: nat, vec: seq<Row<T>>, m: map<Word, T>, i: nat, q: Word,
                         t: map<Word, T>, m': map<Word, T>, x: Word)
    requires Represents(w, vec, m) && i < |vec| && ChangedAt(w, vec[i], m, q, t, m') && x in m'
    ensures Stored(w, vec[i := Row(|q|, t)], x)
  {
    var vec' := vec[i := Row(|q|, t)];
    if x == q {
      assert Get(t, Pad(w, q)).Some? && StoredIn(w, vec'[i], x);
    } else {
      assert Get(m', x) == Get(m, x) && Stored(w, vec, x);
      var j :| 0 <= j < |vec| && StoredIn(w, vec[j], x);
      if j == i {
        UnpadPad(w, x);
        UnpadPad(w, q);
        assert Get(t, Pad(w, x)) == Get(vec[i].table, Pad(w, x));
      }
      assert StoredIn(w, vec'[j], x);
    }
  }

  lemma ChangedRow<T>(w: nat, r: Row<T>, m: map<Word, T>, q: Word, t: map<Word, T>, m': map<Word, T>)
    requires RowHolds(w, r, m) && ChangedAt(w, r, m, q, t, m')
    ensures RowHolds(w, Row(|q|, t), m')
  {
    UnpadPad(w, q);
    forall k | k in t ensures EntryHolds(w, Row(|q|, t), m', k) {
      if k != Pad(w, q) {
        assert Get(t, k) == Get(r.table, k);
        assert EntryHolds(w, r, m, k);
      }
    }
  }

  lemma OtherRow<T>(w: nat, r: Row<T>, m: map<Word, T>, q: Word, m': map<Word, T>)
    requires RowHolds(w, r, m) && r.len != |q|
    requires forall x :: x != q ==> Get(m', x) == Get(m, x)
    ensures RowHolds(w, r, m')
  {
    forall k | k in r.table ensures EntryHolds(w, r, m', k) {
      assert EntryHolds(w, r, m, k);
      assert k[..r.len] != q;
    }
  }

  /** Changing the table of one row at one masked address changes the map at one prefix. */
  lemma ChangeEntry<T>(w: nat, vec: seq<Row<T>>, m: map<Word, T>, i: nat, q: Word,
                       t: map<Word, T>, m': map<Word, T>)
    requires Represents(w, vec, m) && i < |vec| && ChangedAt(w, vec[i], m, q, t, m')
    ensures Represents(w, vec[i := Row(|q|, t)], m')
  {
    var vec' := vec[i := Row(|q|, t)];
    forall x | x in m' ensures Stored(w, vec', x) {
      ChangedStored(w, vec, m, i, q, t, m', x);
    }
    forall j | 0 <= j < |vec'| ensures RowHolds(w, vec'[j], m') {
      if j == i {
        ChangedRow(w, vec[i], m, q, t, m');
      } else {
        OtherRow(w, vec[j], m, q, m');
      }
    }
  }

  lemma UsedWithRow<T>(short: seq<Row<T>>, long: seq<Row<T>>, i: nat)
    requires OneMoreRow(short, long, i) && UsedExcept(short, -1)
    ensures UsedExcept(long, i)
  {
    forall j | 0 <= j < |long| && j != i ensures Used(long[j]) {
      assert Used(short[if j < i then j else j - 1]);
    }
  }

  lemma UsedWithoutRow<T>(short: seq<Row<T>>, long: seq<Row<T>>, i: nat)
    requires OneMoreRow(short, long, i) && UsedExcept(long, i)
    ensures UsedExcept(short, -1)
  {
    forall j | 0 <= j < |short| ensures Used(short[j]) {
      assert Used(long[if j < i then j else j + 1]);
    }
  }

  lemma AllUsed<T>(vec: seq<Row<T>>, i: nat)
    requires i < |vec| && UsedExcept(vec, i) && vec[i].table != map[]
    ensures UsedExcept(vec, -1)
  {
    assert Used(vec[i]);
  }

  lemma UsedAfterChange<T>(vec: seq<Row<T>>, i: nat, r: Row<T>)
    requires i < |vec| && UsedExcept(vec, i)
    ensures UsedExcept(vec[i := r], i) && (Used(r) ==> UsedExcept(vec[i := r], -1))
  {
    var vec' := vec[i := r];
    forall j | 0 <= j < |vec'| && j != i ensures Used(vec'[j]) {
      assert Used(vec[j]);
    }
  }

  class IpLookupTable<T> {
    const width: nat
    var vec: seq<Row<T>>
    // The stored prefixes with their values.
    ghost var contents: map<Word, T>

    ghost predicate HasRows()
      reads this
    {
      Represents(width, vec, contents)
    }

    /** The rows store the contents, and no row is empty. */
    ghost predicate Valid()
      reads this
    {
      HasRows() && UsedExcept(vec, -1)
    }

    constructor (width: nat)
      ensures Valid() && this.width == width && contents == map[]
    {
      this.width, vec, contents := width, [], map[];
    }

    method BinarySearch(len: nat) returns (found: bool, i: nat)
      requires Sorted(vec)
      ensures i <= |vec|
      ensures found ==> i < |vec| && vec[i].len == len
      ensures !found ==> forall j :: 0 <= j < i ==> vec[j].len < len
      ensures !found ==> forall j :: i <= j < |vec| ==> len < vec[j].len
    {
      var lo, hi := 0, |vec|;
      while lo < hi
        invariant lo <= hi <= |vec|
        invariant forall j :: 0 <= j < lo ==> vec[j].len < len
        invariant forall j :: hi <= j < |vec| ==> len < vec[j].len
      {
        var mid := (lo + hi) / 2;
        if vec[mid].len < len {
          lo := mid + 1;
        } else if len < vec[mid].len {
          hi := mid;
        } else {
          return true, mid;
        }
      }
      return false, lo;
    }

    /** The row for a length, made if it is missing; it may be empty. */
    method RowFor(prefix: nat) returns (i: nat)
      requires Valid() && prefix <= width
      modifies this`vec
      ensures HasRows() && i < |vec| && vec[i].len == prefix && UsedExcept(vec, i)
    {
      var found;
      found, i := BinarySearch(prefix);
      if !found {
        var more := vec[..i] + [Row(prefix, map[])] + vec[i..];
        AddEmptyRow(width, vec, more, contents, i, prefix);
        UsedWithRow(vec, more, i);
        vec := more;
      }
    }

    method Insert(a: Word, prefix: nat, t: T) returns (r: Option<T>)
      requires Valid() && |a| == width && prefix <= width
      modifies this
      ensures Valid()
      ensures contents == old(contents)[a[..prefix] := t]
      ensures r == Get(old(contents), a[..prefix])
    {
      ghost var q := a[..prefix];
      MaskKeepsPrefix(a, prefix);
      var masked := MaskWithPrefix(a, prefix);
      var i := RowFor(prefix);
      RowAnswers(width, vec, contents, i, q);
      r := Get(vec[i].table, masked);
      var table := vec[i].table[masked := t];
      ChangeEntry(width, vec, contents, i, q, table, contents[q := t]);
      assert masked in table && table != map[];
      UsedAfterChange(vec, i, Row(prefix, table));
      vec, contents := vec[i := Row(prefix, table)], contents[q := t];
    }

    method LongestMatch(a: Word) returns (r: Option<T>)
      requires Valid() && |a| == width
      ensures PT.IsLongestMatch(contents, a, r)
    {
      ghost var row;
      r, row := FirstHit(a);
      if r.Some? {
        StoredIsLongest(row, a);
      } else {
        NothingMatches(a);
      }
    }

    /** No row from number `i` on has the masked address. */
    ghost predicate NoneFrom(a: Word, i: nat)
      reads this
    {
      forall j :: i <= j < |vec| ==> NotStored(a, vec[j].len)
    }

    lemma OneMoreMiss(a: Word, i: nat)
      requires i < |vec| && NoneFrom(a, i + 1) && NotStored(a, vec[i].len)
      ensures NoneFrom(a, i)
    {}

    /** Goes through the rows from the longest, up to the first that has the masked address. */
    method FirstHit(a: Word) returns (r: Option<T>, ghost row: nat)
      requires HasRows() && |a| == width
      ensures r.None? ==> NoneFrom(a, 0)
      ensures r.Some? ==> row < |vec| && vec[row].len <= width && NoneFrom(a, row + 1)
      ensures r.Some? ==> r == Get(contents, a[..vec[row].len])
    {
      row := 0;
      var i := |vec|;
      while i > 0
        invariant 0 <= i <= |vec| && NoneFrom(a, i)
      {
        i := i - 1;
        RowLength(i);
        r := Probe(i, a);
        if r.Some? {
          row := i;
          return;
        }
        OneMoreMiss(a, i);
      }
      r := None;
    }

    lemma RowLength(i: nat)
      requires HasRows() && i < |vec|
      ensures vec[i].len <= width
    {
      assert RowHolds(width, vec[i], contents);
    }

    lemma NothingMatches(a: Word)
      requires HasRows() && |a| == width
      requires forall j :: 0 <= j < |vec| ==> NotStored(a, vec[j].len)
      ensures PT.IsLongestMatch(contents, a, None)
    {
      forall q | q in contents ensures !(q <= a) {
        if q <= a { StoredHasRow(a, q); }
      }
    }

    ghost predicate NotStored(a: Word, len: nat)
      reads this
    {
      len <= |a| && a[..len] !in contents
    }

    method Probe(i: nat, a: Word) returns (r: Option<T>)
      requires HasRows() && |a| == width && i < |vec| && vec[i].len <= width
      ensures r == Get(contents, a[..vec[i].len])
    {
      MaskKeepsPrefix(a, vec[i].len);
      RowAnswers(width, vec, contents, i, a[..vec[i].len]);
      r := Get(vec[i].table, MaskWithPrefix(a, vec[i].len));
    }

    lemma RowOf(a: Word, q: Word)
      requires |a| == width && q in contents && q <= a && Stored(width, vec, q)
      ensures exists j :: 0 <= j < |vec| && vec[j].len == |q| && !NotStored(a, vec[j].len)
    {
      var j :| 0 <= j < |vec| && StoredIn(width, vec[j], q);
      assert vec[j].len == |q| && a[..vec[j].len] == q;
    }

    lemma StoredHasRow(a: Word, q: Word)
      requires HasRows() && |a| == width && q in contents && q <= a
      ensures exists j :: 0 <= j < |vec| && vec[j].len == |q| && !NotStored(a, vec[j].len)
    {
      RowOf(a, q);
    }

    lemma MissingRow(a: Word, prefix: nat)
      requires HasRows() && |a| == width && prefix <= width
      requires forall j :: 0 <= j < |vec| ==> vec[j].len != prefix
      ensures a[..prefix] !in contents && contents == contents - {a[..prefix]}
    {
      var q := a[..prefix];
      if q in contents {
        StoredHasRow(a, q);
      }
    }

    lemma StoredIsLongest(i: nat, a: Word)
      requires HasRows() && |a| == width && i < |vec| && vec[i].len <= width
      requires a[..vec[i].len] in contents
      requires forall j :: i < j < |vec| ==> NotStored(a, vec[j].len)
      ensures PT.IsLongestMatch(contents, a, Some(contents[a[..vec[i].len]]))
    {
      var best := a[..vec[i].len];
      forall q | q in contents && q <= a ensures |q| <= |best| {
        StoredHasRow(a, q);
      }
      assert best <= a && PT.LongestIn(contents, a, best);
    }

    method Remove(a: Word, prefix: nat) returns (r: Option<T>)
      requires Valid() && |a| == width && prefix <= width
      modifies this
      ensures Valid()
      ensures contents == old(contents) - {a[..prefix]}
      ensures r == Get(old(contents), a[..prefix])
    {
      var found, i := BinarySearch(prefix);
      if !found {
        MissingRow(a, prefix);
        return None;
      }
      r := Take(i, a);
      if vec[i].table == map[] {
        DropRow(i);
      } else {
        AllUsed(vec, i);
      }
    }

    /** Takes an address out of a row. */
    method Take(i: nat, a: Word) returns (r: Option<T>)
      requires Valid() && |a| == width && i < |vec| && vec[i].len <= width
      modifies this
      ensures HasRows() && i < |vec| && UsedExcept(vec, i)
      ensures contents == old(contents) - {a[..old(vec[i].len)]}
      ensures r == Get(old(contents), a[..old(vec[i].len)])
    {
      var prefix := vec[i].len;
      ghost var q := a[..prefix];
      MaskKeepsPrefix(a, prefix);
      var masked := MaskWithPrefix(a, prefix);
      RowAnswers(width, vec, contents, i, q);
      r := Get(vec[i].table, masked);
      var table := vec[i].table - {masked};
      WithoutKey(vec[i].table, masked);
      WithoutKey(contents, q);
      ChangeEntry(width, vec, contents, i, q, table, contents - {q});
      UsedAfterChange(vec, i, Row(prefix, table));
      vec, contents := vec[i := Row(prefix, table)], contents - {q};
    }

    /** Drops a row that has become empty. */
    method DropRow(i: nat)
      requires HasRows() && i < |vec| && vec[i].table == map[] && UsedExcept(vec, i)
      modifies this`vec
      ensures Valid()
    {
      var rest := vec[..i] + vec[i + 1..];
      RemoveEmptyRow(width, rest, vec, contents, i);
      UsedWithoutRow(rest, vec, i);
      vec := rest;
    }
  }

  /** An operation on a table: a value to insert, or a removal. */
  datatype Op<T> = Insert(a: Word, prefix: nat, t: T) | Remove(a: Word, prefix: nat) | Match(a: Word)
  {
    predicate Fits(width: nat) {
      |a| == width && (Match? || prefix <= width)
    }
  }

  function Apply<T>(m: map<Word, T>, op: Op<T>): map<Word, T>
    requires op.Fits(|op.a|)
  {
    match op
    case Insert(a, prefix, t) => m[a[..prefix] := t]
    case Remove(a, prefix) => m - {a[..prefix]}
    case Match(_) => m
  }

  /** What an operation has to return when the table holds `m`. */
  ghost predicate IsAnswer<T>(m: map<Word, T>, op: Op<T>, r: Option<T>)
    requires op.Fits(|op.a|)
  {
    if op.Match? then PT.IsLongestMatch(m, op.a, r) else r == Get(m, op.a[..op.prefix])
  }

  ghost predicate AllFit<T>(ops: seq<Op<T>>, width: nat) {
    forall i :: 0 <= i < |ops| ==> ops[i].Fits(width)
  }

  function After<T>(ops: seq<Op<T>>, width: nat): map<Word, T>
    requires AllFit(ops, width)
  {
    if ops == [] then map[] else Apply(After(ops[..|ops| - 1], width), ops[|ops| - 1])
  }

  /** The linear table and the trie answer every address alike when they hold the same map. */
  method SameAnswers<T>(simple: IpLookupTable<T>, trie: Trie.IpLookupTable<T>, addr: Word)
      returns (r1: Option<T>, r2: Option<T>)
    requires simple.Valid() && trie.Valid() && simple.width == trie.width == |addr|
    requires simple.contents == trie.Contents()
    ensures r1 == r2 && PT.IsLongestMatch(simple.contents, addr, r1)
  {
    r1 := simple.LongestMatch(addr);
    r2 := trie.LongestMatch(addr);
    PT.LongestMatchUnique(simple.contents, addr, r1, r2);
  }

  method SameStep<T>(simple: IpLookupTable<T>, trie: Trie.IpLookupTable<T>, op: Op<T>)
      returns (r1: Option<T>, r2: Option<T>)
    requires simple.Valid() && trie.Valid() && op.Fits(simple.width) && trie.width == simple.width
    requires simple.contents == trie.Contents()
    modifies simple, trie, trie.Repr
    ensures simple.Valid() && trie.Valid() && fresh(trie.Repr - old(trie.Repr))
    ensures simple.contents == trie.Contents() == Apply(old(simple.contents), op)
    ensures r1 == r2 && IsAnswer(old(simple.contents), op, r1)
  {
    match op
    case Insert(a, prefix, t) =>
      r1 := simple.Insert(a, prefix, t);
      r2 := trie.Insert(a, prefix, t);
    case Remove(a, prefix) =>
      r1 := simple.Remove(a, prefix);
      r2 := trie.Remove(a, prefix);
    case Match(a) =>
      r1, r2 := SameAnswers(simple, trie, a);
  }

  /** Any history of insertions, removals and lookups, run on both kinds of tables from the start,
      returns the same from both, and always what the map of its prefixes demands. */
  method SameHistory<T>(width: nat, ops: seq<Op<T>>) returns (rs1: seq<Option<T>>, rs2: seq<Option<T>>)
    requires AllFit(ops, width)
    ensures |rs1| == |ops| && rs1 == rs2
    ensures forall i :: 0 <= i < |ops| ==> AllFit(ops[..i], width) && IsAnswer(After(ops[..i], width), ops[i], rs1[i])
  {
    var simple := new IpLookupTable(width);
    var trie := new Trie.IpLookupTable(width);
    rs1, rs2 := [], [];
    for i := 0 to |ops|
      invariant simple.Valid() && trie.Valid() && simple.width == trie.width == width
      invariant fresh(simple) && fresh(trie) && fresh(trie.Repr)
      invariant simple.contents == trie.Contents() == After(ops[..i], width)
      invariant |rs1| == i && rs1 == rs2
      invariant forall j :: 0 <= j < i ==> IsAnswer(After(ops[..j], width), ops[j], rs1[j])
    {
      assert ops[..i + 1][..i] == ops[..i];
      var r1, r2 := SameStep(simple, trie, ops[i]);
      rs1, rs2 := rs1 + [r1], rs2 + [r2];
    }
  }
}
