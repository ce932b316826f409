/** The order in which the trie is iterated: the preorder list of the stored prefixes, its
    completeness and order, and the table rebuilt from it. */
module Traversal {
  import opened Bits
  import opened Wrappers
  import opened PrefixTree

  /** Own entry first, then the left subtree, then the right one. */
  function Items<V>(t: Tree<V>): seq<(Word, V)> {
    if t.Nil? then []
    else OwnItem(t) + Items(t.left) + Items(t.right)
  }

  function OwnItem<V>(t: Tree<V>): seq<(Word, V)>
    requires t.Node?
  {
    if t.value.Some? then [(t.prefix, t.value.value)] else []
  }

  /** What an explicit stack of subtrees, its top at the end, still has to yield. */
  function StackItems<V>(stack: seq<Tree<V>>): seq<(Word, V)> {
    if stack == [] then []
    else Items(stack[|stack| - 1]) + StackItems(stack[..|stack| - 1])
  }

  lemma {:induction false} ItemsAreContents<V>(t: Tree<V>, q: Word, v: V)
    requires WellFormed(t)
    ensures (q, v) in Items(t) <==> q in Contents(t) && Contents(t)[q] == v
  {
    LookupIsContents(t, q);
    ItemsAreLookups(t, q, v);
  }

  lemma {:induction false} ItemsAreLookups<V>(t: Tree<V>, q: Word, v: V)
    requires WellFormed(t)
    ensures (q, v) in Items(t) <==> Lookup(t, q) == Some(v)
  {
    if t.Node? {
      ItemsAreLookups(t.left, q, v);
      ItemsAreLookups(t.right, q, v);
      if Lookup(t.left, q).Some? { LookupExtends(t.left, q); }
      if Lookup(t.right, q).Some? { LookupExtends(t.right, q); }
      assert (q, v) in Items(t) <==>
             (q, v) in OwnItem(t) || (q, v) in Items(t.left) || (q, v) in Items(t.right);
    }
  }

  // ----- order -----

  /** The order of the pairs (key, length) of two prefixes of `w`-bit keys. */
  ghost predicate Before(w: nat, a: Word, b: Word)
    requires |a| <= w && |b| <= w
  {
    var ka, kb := ValueOf(Pad(w, a)), ValueOf(Pad(w, b));
    ka < kb || (ka == kb && |a| < |b|)
  }

  ghost predicate StrictlySorted<V>(w: nat, s: seq<(Word, V)>) {
    && (forall i :: 0 <= i < |s| ==> |s[i].0| <= w)
    && forall i, j :: 0 <= i < j < |s| ==> Before(w, s[i].0, s[j].0)
  }

  lemma {:induction false} ValueOfZero(n: nat)
    ensures ValueOf(Zero(n)) == 0
  {
    if n > 0 {
      ValueOfZero(n - 1);
      assert Zero(n)[..n - 1] == Zero(n - 1);
    }
  }

  lemma PrefixComesFirst(w: nat, a: Word, b: Word)
    requires a < b && |b| <= w
    ensures Before(w, a, b)
  {
    var tail := Pad(w, b)[|a|..];
    assert Pad(w, b) == a + tail;
    ValueOfAppend(a, tail);
    ValueOfAppend(a, Zero(w - |a|));
    ValueOfZero(w - |a|);
  }

  lemma LeftComesFirst(w: nat, p: Word, a: Word, b: Word)
    requires p < a && p < b && !a[|p|] && b[|p|] && |a| <= w && |b| <= w
    ensures Before(w, a, b)
  {
    var ka, kb := Pad(w, a), Pad(w, b);
    assert ka[..|p|] == a[..|p|] && kb[..|p|] == b[..|p|];
    FirstDifferenceDecides(ka, kb, |p|);
  }

  lemma {:induction false} ItemsExtend<V>(t: Tree<V>, w: nat)
    requires WellFormed(t) && Bounded(t, w) && t.Node?
    ensures forall i :: 0 <= i < |Items(t)| ==> t.prefix <= Items(t)[i].0 && |Items(t)[i].0| <= w
  {
    forall i | 0 <= i < |Items(t)| ensures t.prefix <= Items(t)[i].0 && |Items(t)[i].0| <= w {
      var (q, v) := Items(t)[i];
      ItemsAreLookups(t, q, v);
      LookupExtends(t, q);
      LookupBounded(t, q, w);
    }
  }

  lemma {:induction false} LookupBounded<V>(t: Tree<V>, q: Word, w: nat)
    requires Bounded(t, w) && Lookup(t, q).Some?
    ensures |q| <= w
  {
    if t.prefix != q {
      LookupBounded(Child(t, q[|t.prefix|]), q, w);
    }
  }

  lemma ChildrenInOrder<V>(w: nat, p: Word, l: seq<(Word, V)>, r: seq<(Word, V)>)
    requires forall i :: 0 <= i < |l| ==> p < l[i].0 && !l[i].0[|p|] && |l[i].0| <= w
    requires forall i :: 0 <= i < |r| ==> p < r[i].0 && r[i].0[|p|] && |r[i].0| <= w
    ensures forall i :: 0 <= i < |l| ==> Before(w, p, l[i].0)
    ensures forall i :: 0 <= i < |r| ==> Before(w, p, r[i].0)
    ensures forall i, j :: 0 <= i < |l| && 0 <= j < |r| ==> Before(w, l[i].0, r[j].0)
  {
    forall i | 0 <= i < |l| ensures Before(w, p, l[i].0) {
      PrefixComesFirst(w, p, l[i].0);
    }
    forall i | 0 <= i < |r| ensures Before(w, p, r[i].0) {
      PrefixComesFirst(w, p, r[i].0);
    }
    forall i, j | 0 <= i < |l| && 0 <= j < |r| ensures Before(w, l[i].0, r[j].0) {
      LeftComesFirst(w, p, l[i].0, r[j].0);
    }
  }

  /** Iteration visits the prefixes in strictly increasing (key, length) order; with
      `ItemsAreContents`, each stored prefix is visited exactly once. */
  lemma {:induction false} ItemsSorted<V>(t: Tree<V>, w: nat)
    requires WellFormed(t) && Bounded(t, w)
    ensures StrictlySorted(w, Items(t))
  {
    if t.Node? {
      var p, l, r := t.prefix, Items(t.left), Items(t.right);
      ItemsSorted(t.left, w);
      ItemsSorted(t.right, w);
      if t.left.Node? { ItemsExtend(t.left, w); }
      if t.right.Node? { ItemsExtend(t.right, w); }
      assert forall i :: 0 <= i < |l| ==> p < l[i].0 && !l[i].0[|p|];
      assert forall i :: 0 <= i < |r| ==> p < r[i].0 && r[i].0[|p|];
      ChildrenInOrder(w, p, l, r);
      SortedAppend(w, l, r);
      assert StrictlySorted(w, OwnItem(t));
      SortedAppend(w, OwnItem(t), l + r);
      assert OwnItem(t) + (l + r) == Items(t);
    }
  }

  lemma SortedAppend<V>(w: nat, a: seq<(Word, V)>, b: seq<(Word, V)>)
    requires StrictlySorted(w, a) && StrictlySorted(w, b)
    requires forall i, j :: 0 <= i < |a| && 0 <= j < |b| ==> Before(w, a[i].0, b[j].0)
    ensures StrictlySorted(w, a + b)
  {}

  // ----- rebuilding -----

  function Inserts<V>(items: seq<(Word, V)>): seq<Op<V>> {
    seq(|items|, i requires 0 <= i < |items| => OpInsert(items[i].0, items[i].1))
  }

  lemma {:induction false} InsertedContents<V>(items: seq<(Word, V)>, w: nat, q: Word)
    requires StrictlySorted(w, items)
    ensures q in RunOnMap(Inserts(items)) ==> (q, RunOnMap(Inserts(items))[q]) in items
    ensures forall i :: 0 <= i < |items| && items[i].0 == q ==>
              q in RunOnMap(Inserts(items)) && RunOnMap(Inserts(items))[q] == items[i].1
  {
    if items != [] {
      var n := |items| - 1;
      InsertedContents(items[..n], w, q);
      assert Inserts(items)[..n] == Inserts(items[..n]);
      forall i | 0 <= i < n ensures items[i].0 != items[n].0 && items[..n][i] == items[i] {
        assert Before(w, items[i].0, items[n].0);
      }
    }
  }

  /** Inserting what the iteration yields into an empty table gives the same table. */
  lemma RebuildGivesSameTrie<V>(t: Tree<V>, w: nat)
    requires WellFormed(t) && Bounded(t, w)
    ensures Run(Inserts(Items(t))) == t
  {
    var items := Items(t);
    var m := RunOnMap(Inserts(items));
    ItemsSorted(t, w);
    RunRefinesMap(Inserts(items), w);
    forall q ensures Get(m, q) == Get(Contents(t), q) {
      InsertedContents(items, w, q);
      if q in m { ItemsAreContents(t, q, m[q]); }
      if q in Contents(t) {
        ItemsAreContents(t, q, Contents(t)[q]);
        var i :| 0 <= i < |items| && items[i] == (q, Contents(t)[q]);
        assert items[i].0 == q;
      }
    }
    SameEntries(m, Contents(t));
    Canonical(Run(Inserts(items)), t);
  }
}
