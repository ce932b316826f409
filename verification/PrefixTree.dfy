/** The routing trie as a value: path-compressed binary tries over prefixes, with the
    insertion (node splitting), removal (path collapsing), longest-match walk and preorder
    traversal of the source, and the theorems about them.

    A node of the source holds a masked key `k` and a length `len`; here it holds the first
    `len` bits of `k`, which is the same information (`Bits.Pad` gives the key back).
    Module `IpLookupTrie` holds the heap-allocated trie that is proved to follow this one. */
module PrefixTree {
  import opened Bits
  import opened Wrappers

  datatype Tree<V> = Nil | Node(prefix: Word, value: Option<V>, left: Tree<V>, right: Tree<V>)

  function Child<V>(t: Tree<V>, bit: bool): Tree<V>
    requires t.Node?
  {
    if bit then t.right else t.left
  }

  function WithChild<V>(t: Tree<V>, bit: bool, c: Tree<V>): Tree<V>
    requires t.Node?
  {
    if bit then t.(right := c) else t.(left := c)
  }

  function Leaf<V>(q: Word, v: V): Tree<V> {
    Node(q, Some(v), Nil, Nil)
  }

  // ----- the structural invariant (the source's self-check) -----

  ghost predicate WellFormed<V>(t: Tree<V>) {
    t.Node? ==>
      && (t.value.None? ==> t.left.Node? && t.right.Node?)
      && ChildInPlace(t.prefix, t.left, false)
      && ChildInPlace(t.prefix, t.right, true)
      && WellFormed(t.left)
      && WellFormed(t.right)
  }

  ghost predicate ChildInPlace<V>(parent: Word, c: Tree<V>, bit: bool) {
    c.Node? ==> parent < c.prefix && c.prefix[|parent|] == bit
  }

  /** No prefix is longer than the key width. */
  ghost predicate Bounded<V>(t: Tree<V>, w: nat) {
    t.Node? ==> |t.prefix| <= w && Bounded(t.left, w) && Bounded(t.right, w)
  }

  // ----- contents -----

  /** The stored prefixes with their values. */
  ghost function Contents<V>(t: Tree<V>): map<Word, V> {
    match t
    case Nil => map[]
    case Node(p, v, l, r) =>
      Contents(l) + Contents(r) + (if v.Some? then map[p := v.value] else map[])
  }

  /** The value stored at exactly `q`, found by walking down from the root. */
  function Lookup<V>(t: Tree<V>, q: Word): Option<V> {
    if t.Nil? then None
    else if t.prefix == q then t.value
    else if t.prefix < q then Lookup(Child(t, q[|t.prefix|]), q)
    else None
  }

  lemma {:induction false} LookupExtends<V>(t: Tree<V>, q: Word)
    requires WellFormed(t) && Lookup(t, q).Some?
    ensures t.Node? && t.prefix <= q
  {}

  lemma {:induction false} LookupIsContents<V>(t: Tree<V>, q: Word)
    requires WellFormed(t)
    ensures Lookup(t, q) == Get(Contents(t), q)
  {
    if t.Node? {
      LookupIsContents(t.left, q);
      LookupIsContents(t.right, q);
      if Lookup(t.left, q).Some? { LookupExtends(t.left, q); }
      if Lookup(t.right, q).Some? { LookupExtends(t.right, q); }
    }
  }

  ghost predicate SameLookups<V>(t1: Tree<V>, t2: Tree<V>) {
    forall q :: Lookup(t1, q) == Lookup(t2, q)
  }

  lemma SameContentsSameLookups<V>(t1: Tree<V>, t2: Tree<V>)
    requires WellFormed(t1) && WellFormed(t2) && Contents(t1) == Contents(t2)
    ensures SameLookups(t1, t2)
  {
    forall q ensures Lookup(t1, q) == Lookup(t2, q) {
      LookupIsContents(t1, q);
      LookupIsContents(t2, q);
    }
  }

  // ----- insertion -----

  /** The longest word that both `a` and `b` start with. */
  function CommonPrefix(a: Word, b: Word): (c: Word)
    ensures c <= a && c <= b
    ensures |c| < |a| && |c| < |b| ==> a[|c|] != b[|c|]
  {
    if a == [] || b == [] || a[0] != b[0] then []
    else
      assert a == [a[0]] + a[1..] && b == [b[0]] + b[1..];
      [a[0]] + CommonPrefix(a[1..], b[1..])
  }

  function Insert<V>(t: Tree<V>, q: Word, v: V): Tree<V>
    decreases t
  {
    if t.Nil? then Leaf(q, v)
    else if t.prefix == q then t.(value := Some(v))
    else if t.prefix < q then
      var bit := q[|t.prefix|];
      WithChild(t, bit, Insert(Child(t, bit), q, v))
    else
      var c := CommonPrefix(t.prefix, q);
      Split(t, c, q, v)
  }

  /** A new node at `c` above `t`; the inserted prefix is its other child, or the node itself. */
  function Split<V>(t: Tree<V>, c: Word, q: Word, v: V): Tree<V>
    requires t.Node? && |c| < |t.prefix|
  {
    var other := if |q| != |c| then Leaf(q, v) else Nil;
    var value := if |q| != |c| then None else Some(v);
    if t.prefix[|c|] then Node(c, value, other, t) else Node(c, value, t, other)
  }

  lemma SplitKeepsInvariant<V>(t: Tree<V>, q: Word, v: V, w: nat)
    requires WellFormed(t) && Bounded(t, w) && t.Node? && |q| <= w && !(t.prefix <= q)
    ensures var t' := Split(t, CommonPrefix(t.prefix, q), q, v);
            WellFormed(t') && Bounded(t', w) && t'.prefix == CommonPrefix(t.prefix, q)
  {}

  lemma {:induction false} InsertKeepsInvariant<V>(t: Tree<V>, q: Word, v: V, w: nat)
    requires WellFormed(t) && Bounded(t, w) && |q| <= w
    ensures var t' := Insert(t, q, v);
            && WellFormed(t') && Bounded(t', w) && t'.Node?
            && (t.Node? ==> t'.prefix == CommonPrefix(t.prefix, q))
            && t'.prefix <= q
    decreases t
  {
    if t.Node? {
      var c := CommonPrefix(t.prefix, q);
      if t.prefix <= q {
        CommonPrefixOfExtension(t.prefix, q);
        if t.prefix < q {
          InsertKeepsInvariant(Child(t, q[|t.prefix|]), q, v, w);
          CommonPrefixKeepsStart(t, q);
        }
      } else {
        SplitKeepsInvariant(t, q, v, w);
      }
    }
  }

  lemma {:induction false} CommonPrefixOfExtension(a: Word, b: Word)
    requires a <= b
    ensures CommonPrefix(a, b) == a
  {
    if a != [] {
      CommonPrefixOfExtension(a[1..], b[1..]);
    }
  }

  lemma {:induction false} CommonPrefixIsLongest(a: Word, b: Word, s: Word)
    requires s <= a && s <= b
    ensures s <= CommonPrefix(a, b)
  {
    if s != [] {
      CommonPrefixIsLongest(a[1..], b[1..], s[1..]);
    }
  }

  lemma CommonPrefixKeepsStart<V>(t: Tree<V>, q: Word)
    requires WellFormed(t) && t.Node? && t.prefix < q
    ensures var child := Child(t, q[|t.prefix|]);
            child.Node? ==> t.prefix < CommonPrefix(child.prefix, q)
  {
    var n := |t.prefix|;
    var child := Child(t, q[n]);
    if child.Node? {
      assert child.prefix[..n + 1] == q[..n + 1];
      CommonPrefixIsLongest(child.prefix, q, q[..n + 1]);
    }
  }

  lemma {:induction false} InsertLookup<V>(t: Tree<V>, q: Word, v: V, x: Word)
    requires WellFormed(t)
    ensures Lookup(Insert(t, q, v), x) == if x == q then Some(v) else Lookup(t, x)
    decreases t
  {
    if t.Node? {
      var p := t.prefix;
      if p < q {
        InsertLookup(Child(t, q[|p|]), q, v, x);
      } else if p != q {
        SplitLookup(t, q, v, x);
      }
    }
  }

  lemma LeafLookup<V>(q: Word, v: V, x: Word)
    ensures Lookup(Leaf(q, v), x) == if x == q then Some(v) else None
  {
    if q < x {
      assert Child(Leaf(q, v), x[|q|]).Nil?;
    }
  }

  lemma SplitLookup<V>(t: Tree<V>, q: Word, v: V, x: Word)
    requires WellFormed(t) && t.Node? && !(t.prefix <= q)
    ensures Lookup(Insert(t, q, v), x) == if x == q then Some(v) else Lookup(t, x)
  {
    var p := t.prefix;
    var c := CommonPrefix(p, q);
    var s := Split(t, c, q, v);
    var bit := p[|c|];
    assert |q| != |c| ==> q[|c|] == !bit;
    assert |q| == |c| ==> q == c;
    if Lookup(t, x).Some? {
      LookupExtends(t, x);
      assert c < x && x[|c|] == bit;
    } else if c < x {
      assert Lookup(s, x) == Lookup(Child(s, x[|c|]), x);
      if x[|c|] == bit {
        assert Child(s, bit) == t;
      } else {
        LeafLookup(q, v, x);
        assert Child(s, !bit) == if |q| != |c| then Leaf(q, v) else Nil;
      }
    } else {
      assert x != c ==> Lookup(s, x).None?;
    }
  }

  lemma InsertContents<V>(t: Tree<V>, q: Word, v: V, w: nat)
    requires WellFormed(t) && Bounded(t, w) && |q| <= w
    ensures Contents(Insert(t, q, v)) == Contents(t)[q := v]
  {
    var t' := Insert(t, q, v);
    InsertKeepsInvariant(t, q, v, w);
    var m, m' := Contents(t), Contents(t');
    forall x ensures Get(m', x) == if x == q then Some(v) else Get(m, x) {
      InsertLookup(t, q, v, x);
      LookupIsContents(t, x);
      LookupIsContents(t', x);
    }
    SameEntries(m', m[q := v]);
  }

  lemma SameEntries<K, V>(m1: map<K, V>, m2: map<K, V>)
    requires forall x :: Get(m1, x) == Get(m2, x)
    ensures m1 == m2
  {
    forall x ensures x in m1 <==> x in m2 {
      assert Get(m1, x) == Get(m2, x);
    }
    forall x | x in m1 ensures m1[x] == m2[x] {
      assert Get(m1, x) == Get(m2, x);
    }
  }

  // ----- removal -----

  function Remove<V>(t: Tree<V>, q: Word): Tree<V>
    decreases t
  {
    if t.Nil? then Nil
    else if t.prefix == q then
      if t.left.Nil? then t.right
      else if t.right.Nil? then t.left
      else t.(value := None)
    else if t.prefix < q then
      var bit := q[|t.prefix|];
      Collapse(WithChild(t, bit, Remove(Child(t, bit), q)))
    else t
  }

  /** A node without value is dropped in favour of its child when it has at most one. */
  function Collapse<V>(t: Tree<V>): Tree<V>
    requires t.Node?
  {
    if t.value.None? && t.left.Nil? then t.right
    else if t.value.None? && t.right.Nil? then t.left
    else t
  }

  lemma {:induction false} RemoveKeepsInvariant<V>(t: Tree<V>, q: Word, w: nat)
    requires WellFormed(t) && Bounded(t, w)
    ensures var t' := Remove(t, q);
            && WellFormed(t') && Bounded(t', w)
            && (t'.Node? ==> t.Node? && t.prefix <= t'.prefix)
    decreases t
  {
    if t.Node? && t.prefix < q {
      RemoveKeepsInvariant(Child(t, q[|t.prefix|]), q, w);
    }
  }

  lemma {:induction false} RemoveLookup<V>(t: Tree<V>, q: Word, x: Word)
    requires WellFormed(t)
    ensures Lookup(Remove(t, q), x) == if x == q then None else Lookup(t, x)
    decreases t
  {
    if t.Node? {
      var p := t.prefix;
      if Lookup(t.left, x).Some? { LookupExtends(t.left, x); }
      if Lookup(t.right, x).Some? { LookupExtends(t.right, x); }
      if p < q {
        var bit := q[|p|];
        var c := Child(t, bit);
        RemoveLookup(c, q, x);
        RemoveKeepsInvariant(c, q, MaxLength(c));
        if Lookup(Remove(c, q), x).Some? { LookupExtends(Remove(c, q), x); }
      }
    }
  }

  /** Some width that bounds `t`. */
  ghost function MaxLength<V>(t: Tree<V>): (w: nat)
    ensures Bounded(t, w)
  {
    if t.Nil? then 0
    else
      var l, r := MaxLength(t.left), MaxLength(t.right);
      var w := |t.prefix| + l + r;
      BoundedMonotone(t.left, l, w);
      BoundedMonotone(t.right, r, w);
      w
  }

  lemma BoundedMonotone<V>(t: Tree<V>, w1: nat, w2: nat)
    requires Bounded(t, w1) && w1 <= w2
    ensures Bounded(t, w2)
  {}

  lemma RemoveContents<V>(t: Tree<V>, q: Word)
    requires WellFormed(t)
    ensures Contents(Remove(t, q)) == Contents(t) - {q}
  {
    var t' := Remove(t, q);
    RemoveKeepsInvariant(t, q, MaxLength(t));
    var m, m' := Contents(t), Contents(t');
    forall x ensures Get(m', x) == if x == q then None else Get(m, x) {
      RemoveLookup(t, q, x);
      LookupIsContents(t, x);
      LookupIsContents(t', x);
    }
    SameEntries(m', m - {q});
  }

  // ----- canonical form -----

  /** Every non-empty well-formed trie stores something below its root. */
  lemma {:induction false} StoresSomething<V>(t: Tree<V>) returns (q: Word)
    requires WellFormed(t) && t.Node?
    ensures Lookup(t, q).Some? && t.prefix <= q
  {
    if t.value.Some? {
      q := t.prefix;
    } else {
      q := StoresSomething(t.left);
    }
  }

  lemma RootsComparable<V>(t1: Tree<V>, t2: Tree<V>)
    requires WellFormed(t1) && WellFormed(t2) && t1.Node? && t2.Node?
    requires SameLookups(t1, t2)
    ensures t1.prefix <= t2.prefix
  {
    var q := StoresSomething(t2);
    LookupExtends(t1, q);
    var p1, p2 := t1.prefix, t2.prefix;
    if |p2| < |p1| {
      assert p2 < p1 by { assert p1[..|p2|] == q[..|p2|]; }
      if t2.value.Some? {
        assert Lookup(t2, p2).Some?;
        LookupExtends(t1, p2);
        assert false;
      } else {
        var c := Child(t2, !p1[|p2|]);
        var x := StoresSomething(c);
        assert Lookup(t2, x) == Lookup(c, x);
        LookupExtends(t1, x);
        assert false;
      }
    } else {
      assert p2[..|p1|] == q[..|p1|];
    }
  }

  lemma ChildLookup<V>(t: Tree<V>, bit: bool, q: Word)
    requires WellFormed(t) && t.Node?
    ensures Lookup(Child(t, bit), q)
         == if t.prefix < q && q[|t.prefix|] == bit then Lookup(t, q) else None
  {
    if Lookup(Child(t, bit), q).Some? {
      LookupExtends(Child(t, bit), q);
    }
  }

  /** A trie is determined by what it stores. */
  lemma {:induction false} Canonical<V>(t1: Tree<V>, t2: Tree<V>)
    requires WellFormed(t1) && WellFormed(t2)
    requires Contents(t1) == Contents(t2)
    ensures t1 == t2
  {
    SameContentsSameLookups(t1, t2);
    CanonicalByLookup(t1, t2);
  }

  lemma {:induction false} CanonicalByLookup<V>(t1: Tree<V>, t2: Tree<V>)
    requires WellFormed(t1) && WellFormed(t2)
    requires SameLookups(t1, t2)
    ensures t1 == t2
  {
    if t1.Node? || t2.Node? {
      var _ := StoresSomething(if t1.Node? then t1 else t2);
      RootsComparable(t1, t2);
      RootsComparable(t2, t1);
      assert t1.prefix == t2.prefix;
      assert t1.value == Lookup(t1, t1.prefix) == t2.value;
      forall bit, q ensures Lookup(Child(t1, bit), q) == Lookup(Child(t2, bit), q) {
        ChildLookup(t1, bit, q);
        ChildLookup(t2, bit, q);
      }
      assert SameLookups(Child(t1, false), Child(t2, false));
      assert SameLookups(Child(t1, true), Child(t2, true));
      CanonicalByLookup(t1.left, t2.left);
      CanonicalByLookup(t1.right, t2.right);
    }
  }

  lemma EmptyIffNil<V>(t: Tree<V>)
    requires WellFormed(t)
    ensures t.Nil? <==> Contents(t) == map[]
  {
    if t.Node? {
      var q := StoresSomething(t);
      LookupIsContents(t, q);
    }
  }

  // ----- histories -----

  datatype Op<V> = OpInsert(prefix: Word, value: V) | OpRemove(prefix: Word)

  function Apply<V>(t: Tree<V>, op: Op<V>): Tree<V> {
    match op
    case OpInsert(q, v) => Insert(t, q, v)
    case OpRemove(q) => Remove(t, q)
  }

  function ApplyToMap<V>(m: map<Word, V>, op: Op<V>): map<Word, V> {
    match op
    case OpInsert(q, v) => m[q := v]
    case OpRemove(q) => m - {q}
  }

  function Run<V>(ops: seq<Op<V>>): Tree<V> {
    if ops == [] then Nil else Apply(Run(ops[..|ops| - 1]), ops[|ops| - 1])
  }

  function RunOnMap<V>(ops: seq<Op<V>>): map<Word, V> {
    if ops == [] then map[] else ApplyToMap(RunOnMap(ops[..|ops| - 1]), ops[|ops| - 1])
  }

  ghost predicate WidthsOk<V>(ops: seq<Op<V>>, w: nat) {
    forall i :: 0 <= i < |ops| ==> |ops[i].prefix| <= w
  }

  lemma ApplyRefinesMap<V>(t: Tree<V>, op: Op<V>, w: nat)
    requires WellFormed(t) && Bounded(t, w) && |op.prefix| <= w
    ensures WellFormed(Apply(t, op)) && Bounded(Apply(t, op), w)
    ensures Contents(Apply(t, op)) == ApplyToMap(Contents(t), op)
  {
    match op {
      case OpInsert(q, v) =>
        InsertKeepsInvariant(t, q, v, w);
        InsertContents(t, q, v, w);
      case OpRemove(q) =>
        RemoveKeepsInvariant(t, q, w);
        RemoveContents(t, q);
    }
  }

  /** Every history keeps the invariant and computes the map. */
  lemma {:induction false} RunRefinesMap<V>(ops: seq<Op<V>>, w: nat)
    requires WidthsOk(ops, w)
    ensures WellFormed(Run(ops)) && Bounded(Run(ops), w)
    ensures Contents(Run(ops)) == RunOnMap(ops)
    ensures Run(ops).Nil? <==> RunOnMap(ops) == map[]
  {
    if ops != [] {
      var before := ops[..|ops| - 1];
      RunRefinesMap(before, w);
      ApplyRefinesMap(Run(before), ops[|ops| - 1], w);
    }
    EmptyIffNil(Run(ops));
  }

  /** Histories with the same final contents end in the same trie. */
  lemma HistoriesWithSameContentsAgree<V>(ops1: seq<Op<V>>, ops2: seq<Op<V>>, w: nat)
    requires WidthsOk(ops1, w) && WidthsOk(ops2, w)
    ensures Run(ops1) == Run(ops2) <==> RunOnMap(ops1) == RunOnMap(ops2)
  {
    RunRefinesMap(ops1, w);
    RunRefinesMap(ops2, w);
    if RunOnMap(ops1) == RunOnMap(ops2) {
      Canonical(Run(ops1), Run(ops2));
    }
  }

  lemma AddThenDrop<K, V>(m: map<K, V>, k: K, v: V)
    ensures k !in m ==> m[k := v] - {k} == m
    ensures k in m && m[k] == v ==> (m - {k})[k := v] == m
  {}

  lemma RunsBackToBack<V>(t: Tree<V>, op1: Op<V>, op2: Op<V>, w: nat)
    requires WellFormed(t) && Bounded(t, w) && |op1.prefix| <= w && |op2.prefix| <= w
    ensures var t' := Apply(Apply(t, op1), op2);
            && WellFormed(t') && Contents(t') == ApplyToMap(ApplyToMap(Contents(t), op1), op2)
  {
    ApplyRefinesMap(t, op1, w);
    ApplyRefinesMap(Apply(t, op1), op2, w);
  }

  /** Removing a freshly inserted prefix restores the exact trie. */
  lemma RemoveUndoesInsert<V>(t: Tree<V>, q: Word, v: V, w: nat)
    requires WellFormed(t) && Bounded(t, w) && |q| <= w
    requires q !in Contents(t)
    ensures Apply(Apply(t, OpInsert(q, v)), OpRemove(q)) == t
  {
    RunsBackToBack(t, OpInsert(q, v), OpRemove(q), w);
    AddThenDrop(Contents(t), q, v);
    Canonical(Apply(Apply(t, OpInsert(q, v)), OpRemove(q)), t);
  }

  /** Putting back a removed prefix restores the exact trie. */
  lemma InsertUndoesRemove<V>(t: Tree<V>, q: Word, v: V, w: nat)
    requires WellFormed(t) && Bounded(t, w) && |q| <= w
    requires q in Contents(t) && Contents(t)[q] == v
    ensures Apply(Apply(t, OpRemove(q)), OpInsert(q, v)) == t
  {
    RunsBackToBack(t, OpRemove(q), OpInsert(q, v), w);
    AddThenDrop(Contents(t), q, v);
    Canonical(Apply(Apply(t, OpRemove(q)), OpInsert(q, v)), t);
  }

  // ----- longest match -----

  function LongestMatch<V>(t: Tree<V>, k: Word, best: Option<V>): Option<V> {
    if t.Nil? || !(t.prefix <= k) then best
    else
      var best' := if t.value.Some? then t.value else best;
      if |t.prefix| < |k| then LongestMatch(Child(t, k[|t.prefix|]), k, best') else best'
  }

  /** `r` is what a routing table holding `m` answers for the address `k`: the value of the
      longest stored prefix of `k`, if there is any. */
  ghost predicate IsLongestMatch<V>(m: map<Word, V>, k: Word, r: Option<V>) {
    match r
    case None => forall q :: q in m ==> !(q <= k)
    case Some(v) => exists q :: q in m && q <= k && m[q] == v && LongestIn(m, k, q)
  }

  ghost predicate LongestIn<V>(m: map<Word, V>, k: Word, q: Word) {
    forall q' :: q' in m && q' <= k ==> |q'| <= |q|
  }

  lemma LongestMatchUnique<V>(m: map<Word, V>, k: Word, r1: Option<V>, r2: Option<V>)
    requires IsLongestMatch(m, k, r1) && IsLongestMatch(m, k, r2)
    ensures r1 == r2
  {
    if r1.Some? && r2.Some? {
      var q1 :| q1 in m && q1 <= k && m[q1] == r1.value && LongestIn(m, k, q1);
      var q2 :| q2 in m && q2 <= k && m[q2] == r2.value && LongestIn(m, k, q2);
      assert q1 == k[..|q1|] == k[..|q2|] == q2;
    }
  }

  ghost predicate NoMatch<V>(t: Tree<V>, k: Word) {
    forall q :: q <= k ==> Lookup(t, q).None?
  }

  ghost predicate DeepestMatch<V>(t: Tree<V>, k: Word, q: Word) {
    && q <= k
    && Lookup(t, q).Some?
    && forall q' :: q' <= k && Lookup(t, q').Some? ==> |q'| <= |q|
  }

  lemma OutsideNoMatch<V>(t: Tree<V>, k: Word)
    requires WellFormed(t) && t.Node? && !(t.prefix <= k)
    ensures NoMatch(t, k)
  {
    forall q | q <= k ensures Lookup(t, q).None? {
      if Lookup(t, q).Some? {
        LookupExtends(t, q);
      }
    }
  }

  /** A match in a node on the path is at the node itself or in the child that the address
      points to. */
  lemma MatchesBelow<V>(t: Tree<V>, k: Word, q: Word)
    requires WellFormed(t) && t.Node? && t.prefix <= k && q <= k && q != t.prefix
    ensures Lookup(t, q) == if |t.prefix| < |k| then Lookup(Child(t, k[|t.prefix|]), q) else None
  {
    var p := t.prefix;
    if |p| < |k| {
      ChildLookup(t, k[|p|], q);
    }
    if |p| < |q| {
      assert q[..|p|] == k[..|p|];
    }
  }

  /** The walk answers with the deepest match below the node it is at, or else with the best
      match it has seen so far. */
  lemma {:induction false} LongestMatchWalk<V>(t: Tree<V>, k: Word, best: Option<V>)
    requires WellFormed(t)
    ensures (LongestMatch(t, k, best) == best && NoMatch(t, k))
         || exists q :: DeepestMatch(t, k, q) && Lookup(t, q) == LongestMatch(t, k, best)
  {
    if t.Node? && !(t.prefix <= k) {
      OutsideNoMatch(t, k);
    } else if t.Node? {
      var p := t.prefix;
      forall q | q <= k && q != p
        ensures Lookup(t, q) == if |p| < |k| then Lookup(Child(t, k[|p|]), q) else None
      {
        MatchesBelow(t, k, q);
      }
      var best' := if t.value.Some? then t.value else best;
      assert Lookup(t, p) == t.value;
      if |p| < |k| {
        var c := Child(t, k[|p|]);
        LongestMatchWalk(c, k, best');
        if q :| DeepestMatch(c, k, q) && Lookup(c, q) == LongestMatch(c, k, best') {
          LookupExtends(c, q);
          assert DeepestMatch(t, k, q);
        } else if t.value.Some? {
          assert DeepestMatch(t, k, p);
        }
      } else if t.value.Some? {
        assert DeepestMatch(t, k, p);
      }
    }
  }

  lemma LongestMatchCorrect<V>(t: Tree<V>, k: Word)
    requires WellFormed(t)
    ensures IsLongestMatch(Contents(t), k, LongestMatch(t, k, None))
  {
    var m, r := Contents(t), LongestMatch(t, k, None);
    forall q ensures Lookup(t, q) == Get(m, q) {
      LookupIsContents(t, q);
    }
    LongestMatchWalk(t, k, None);
    if q :| DeepestMatch(t, k, q) && Lookup(t, q) == r {
      assert Lookup(t, q) == Get(m, q);
      forall q' | q' in m && q' <= k ensures |q'| <= |q| {
        assert Lookup(t, q') == Get(m, q');
      }
      assert LongestIn(m, k, q);
    } else {
      forall q | q in m ensures !(q <= k) {
        assert Lookup(t, q) == Get(m, q);
      }
    }
  }
}
