/** The routing trie on the heap: boxed nodes changed in place, as the source has them. Every
    method is proved to follow the value-level trie of `PrefixTree`, whose theorems then
    speak about every table. */
module IpLookupTrie {
  import opened Bits
  import opened Wrappers
  import opened Traversal
  import PT = PrefixTree

  class TrieNode<T> {
    var k: Word
    var len: nat
    var left: TrieNode?<T>
    var right: TrieNode?<T>
    var value: Option<T>

    // The subtree that this node is the root of, as a value, and the nodes it consists of.
    ghost var tree: PT.Tree<T>
    ghost var Repr: set<TrieNode<T>>

    ghost predicate Valid()
      reads this, Repr
      ensures Valid() ==> this in Repr
    {
      && this in Repr
      && Holds()
      && (if left == null then tree.left.Nil? else Owns(left) && left.Valid() && left.tree == tree.left)
      && (if right == null then tree.right.Nil? else Owns(right) && right.Valid() && right.tree == tree.right)
      && (left != null && right != null ==> left.Repr !! right.Repr)
    }

    /** The fields of this node are those of the root of `tree`. */
    ghost predicate Holds()
      reads this
    {
      && tree.Node?
      && len == |tree.prefix| <= |k|
      && k == Pad(|k|, tree.prefix)
      && value == tree.value
    }

    /** A box below this node, with keys of the same width. */
    ghost predicate Owns(c: TrieNode<T>)
      reads this, Repr
    {
      c in Repr && c.Repr <= Repr && this !in c.Repr && |c.k| == |k|
    }

    /** Validity of this node, leaving out the child on one side. */
    ghost predicate ValidExcept(side: bool)
      reads this, Repr
    {
      && this in Repr
      && Holds()
      && var c, t := if side then left else right, if side then tree.left else tree.right;
         if c == null then t.Nil? else Owns(c) && c.Valid() && c.tree == t
    }

    constructor (k: Word, len: nat, left: TrieNode?<T>, right: TrieNode?<T>, value: Option<T>,
                 ghost tree: PT.Tree<T>, ghost below: set<TrieNode<T>>)
      ensures this.k == k && this.len == len && this.left == left && this.right == right
      ensures this.value == value && this.tree == tree && Repr == {this} + below
    {
      this.k, this.len, this.left, this.right, this.value := k, len, left, right, value;
      this.tree, Repr := tree, {this} + below;
    }

    /** Inserts a masked key; returns the value that was stored at it. */
    method Insert(k: Word, kLen: nat, v: T) returns (r: Option<T>)
      requires Valid() && |k| == |this.k| && kLen <= |k| && k == Pad(|k|, k[..kLen])
      modifies Repr
      ensures Valid() && fresh(Repr - old(Repr)) && |this.k| == old(|this.k|)
      ensures tree == PT.Insert(old(tree), k[..kLen], v)
      ensures r == PT.Lookup(old(tree), k[..kLen])
      decreases StepsDown(tree, k[..kLen]), 1
    {
      var selfMask := ToMask(|k|, len);
      ghost var q := k[..kLen];
      PrefixOfPad(|k|, tree.prefix);
      MaskedEqualIffSamePrefix(this.k, k, len);
      if len == kLen && And(this.k, selfMask) == And(k, selfMask) {
        // Replace the value of this node.
        r := value;
        value := Some(v);
        tree := tree.(value := Some(v));
      } else if kLen > len && And(k, selfMask) == And(this.k, selfMask) {
        // The key of this node is a prefix of the inserted key: insert to a child.
        assert q[..len] == k[..len];
        assert q[len] == k[len];
        NextBitMaskSelectsBit(k, len);
        r := InsertBelow(k, kLen, v, And(k, NextBitMask1(|k|, len)) != Zero(|k|));
      } else {
        assert !(tree.prefix <= q) by {
          assert len <= kLen ==> k[..len] == q[..len];
        }
        SplitNode(k, kLen, v);
        r := None;
      }
    }

    method InsertBelow(k: Word, kLen: nat, v: T, toRight: bool) returns (r: Option<T>)
      requires Valid() && |k| == |this.k| && kLen <= |k| && k == Pad(|k|, k[..kLen])
      requires tree.prefix < k[..kLen] && toRight == k[..kLen][len]
      modifies Repr
      ensures Valid() && fresh(Repr - old(Repr)) && |this.k| == old(|this.k|)
      ensures tree == PT.Insert(old(tree), k[..kLen], v)
      ensures r == PT.Lookup(old(tree), k[..kLen])
      decreases StepsDown(tree, k[..kLen]), 0
    {
      var c := ChildOrNew(k, kLen, toRight);
      r := c.Insert(k, kLen, v);
      SetChild(toRight, c);
    }

    /** The child on one side, or a new node without value if there is none. */
    method ChildOrNew(k: Word, kLen: nat, toRight: bool) returns (c: TrieNode<T>)
      requires Valid() && |k| == |this.k| && kLen <= |k| && k == Pad(|k|, k[..kLen])
      ensures Valid() && c.Valid() && |c.k| == |k| && this !in c.Repr && fresh(c.Repr - Repr)
      ensures var other := if toRight then left else right; other != null ==> other.Repr !! c.Repr
      ensures var child := PT.Child(tree, toRight);
              c.tree == if child.Nil? then PT.Node(k[..kLen], None, PT.Nil, PT.Nil) else child
    {
      var child := if toRight then right else left;
      if child == null {
        c := new TrieNode(k, kLen, null, null, None, PT.Node(k[..kLen], None, PT.Nil, PT.Nil), {});
      } else {
        c := child;
      }
    }

    /** Puts a subtree in the place of a child. */
    method SetChild(toRight: bool, c: TrieNode<T>)
      requires ValidExcept(toRight) && c.Valid() && this !in c.Repr && |c.k| == |k|
      requires var other := if toRight then left else right; other != null ==> other.Repr !! c.Repr
      modifies this
      ensures Valid() && Repr == old(Repr) + c.Repr && |k| == old(|k|)
      ensures tree == PT.WithChild(old(tree), toRight, c.tree)
      ensures k == old(k) && len == old(len) && value == old(value)
      ensures if toRight then right == c && left == old(left) else left == c && right == old(right)
    {
      if toRight { right := c; } else { left := c; }
      Repr := Repr + c.Repr;
      tree := PT.WithChild(tree, toRight, c.tree);
    }

    /** Shortens this node to the common prefix of its key and the inserted one, and moves the
        old node into a child. */
    method SplitNode(k: Word, kLen: nat, v: T)
      requires Valid() && |k| == |this.k| && kLen <= |k| && k == Pad(|k|, k[..kLen])
      requires !(tree.prefix <= k[..kLen])
      modifies this
      ensures Valid() && fresh(Repr - old(Repr)) && |this.k| == old(|this.k|)
      ensures tree == PT.Insert(old(tree), k[..kLen], v)
    {
      ghost var q := k[..kLen];
      SplitMasks(this.k, len, k, kLen, tree.prefix);
      var c := CommonPrefixLen(this.k, len, k, kLen);
      var bit := PushDown(c, q[..c]);
      PutNew(k, kLen, v, !bit);
    }

    /** The inserted key becomes the missing child, or is at this node. */
    method PutNew(k: Word, kLen: nat, v: T, side: bool)
      requires Valid() && |k| == |this.k| && kLen <= |k| && k == Pad(|k|, k[..kLen])
      modifies this
      ensures Valid() && fresh(Repr - old(Repr)) && |this.k| == old(|this.k|)
      ensures tree == if kLen != old(len) then PT.WithChild(old(tree), side, PT.Leaf(k[..kLen], v))
                      else old(tree).(value := Some(v))
    {
      if kLen != len {
        var newNode := new TrieNode(k, kLen, null, null, Some(v), PT.Leaf(k[..kLen], v), {});
        SetChild(side, newNode);
      } else {
        value := Some(v);
        tree := tree.(value := Some(v));
      }
    }

    /** Puts a node for the first `c` bits of the key in the place of this one, which becomes
        its only child, on the returned side. */
    method PushDown(c: nat, ghost p: Word) returns (bit: bool)
      requires Valid() && c < len && |p| == c
      requires And(k, ToMask(|k|, c)) == Pad(|k|, p)
      modifies this
      ensures Valid() && fresh(Repr - old(Repr)) && |k| == old(|k|) && len == c
      ensures bit == (And(old(k), NextBitMask1(|k|, c)) != Zero(|k|))
      ensures (if bit then left else right) == null
      ensures tree == PT.WithChild(PT.Node(p, None, PT.Nil, PT.Nil), bit, old(tree))
    {
      var oldSelf := MoveOut();
      Reset(And(k, ToMask(|k|, c)), c, p);
      bit := And(oldSelf.k, NextBitMask1(|k|, c)) != Zero(|k|);
      SetChild(bit, oldSelf);
    }

    /** Makes this a node without value and children. */
    method Reset(k: Word, len: nat, ghost p: Word)
      requires |k| == |this.k| && len == |p| <= |k| && k == Pad(|k|, p)
      modifies this
      ensures Valid() && Repr == {this} && |this.k| == old(|this.k|) && this.len == len
      ensures left == null && right == null && tree == PT.Node(p, None, PT.Nil, PT.Nil)
    {
      this.k, this.len, left, right, value := k, len, null, null, None;
      Repr, tree := {this}, PT.Node(p, None, PT.Nil, PT.Nil);
    }

    /** Removes a prefix. Returns the value stored at it and what remains of this subtree. */
    method Remove(k: Word, kLen: nat) returns (r: Option<T>, node: TrieNode?<T>)
      requires Valid() && |k| == |this.k| && kLen <= |k|
      modifies Repr
      ensures r == PT.Lookup(old(tree), k[..kLen])
      ensures IsTree(node, PT.Remove(old(tree), k[..kLen]), |k|, old(Repr))
      decreases StepsDown(tree, k[..kLen]), 1
    {
      var mask, selfMask := ToMask(|k|, kLen), ToMask(|k|, len);
      PrefixOfPad(|k|, tree.prefix);
      MaskDeterminesLength(|k|, len, kLen);
      MaskedEqualIffSamePrefix(this.k, k, len);
      if selfMask == mask && And(this.k, mask) == And(k, mask) {
        // Matches this node.
        r, node := TakeValue();
        return;
      }
      assert len <= kLen ==> k[..kLen][..len] == k[..len];
      if kLen <= len || And(k, selfMask) != And(this.k, selfMask) {
        // No match.
        return None, this;
      }
      NextBitMaskSelectsBit(k, len);
      assert k[..kLen][len] == k[len];
      r := RemoveBelow(k, kLen, And(k, NextBitMask1(|k|, len)) != Zero(|k|));
      // Return a child if this node is no longer necessary.
      if value.None? && left == null {
        node := right;
      } else if value.None? && right == null {
        node := left;
      } else {
        node := this;
      }
    }

    /** Takes the value; a node that then has at most one child gives way to that child. */
    method TakeValue() returns (r: Option<T>, node: TrieNode?<T>)
      requires Valid()
      modifies this
      ensures r == old(tree).value
      ensures IsTree(node, PT.Remove(old(tree), old(tree).prefix), old(|k|), old(Repr))
    {
      r := value;
      value := None;
      tree := tree.(value := None);
      if left == null {
        node := right;
      } else if right == null {
        node := left;
      } else {
        node := this;
      }
    }

    method RemoveBelow(k: Word, kLen: nat, fromRight: bool) returns (r: Option<T>)
      requires Valid() && |k| == |this.k| && kLen <= |k|
      requires tree.prefix < k[..kLen] && fromRight == k[..kLen][len]
      modifies Repr
      ensures Valid() && Repr == old(Repr) && |this.k| == |k|
      ensures tree == PT.WithChild(old(tree), fromRight, PT.Remove(PT.Child(old(tree), fromRight), k[..kLen]))
      ensures r == PT.Lookup(old(tree), k[..kLen])
      decreases StepsDown(tree, k[..kLen]), 0
    {
      var child := if fromRight then right else left;
      if child == null {
        return None;
      }
      var rest;
      r, rest := child.Remove(k, kLen);
      if rest != null {
        SetChild(fromRight, rest);
      } else {
        DropChild(fromRight);
      }
    }

    method DropChild(onRight: bool)
      requires ValidExcept(onRight)
      modifies this
      ensures Valid() && Repr == old(Repr) && |k| == old(|k|)
      ensures tree == PT.WithChild(old(tree), onRight, PT.Nil)
    {
      if onRight { right := null; } else { left := null; }
      tree := PT.WithChild(tree, onRight, PT.Nil);
    }

    /** Finds the value of the longest stored prefix of `k`. */
    method LongestMatch(k: Word) returns (best: Option<T>)
      requires Valid() && |k| == |this.k|
      ensures best == PT.LongestMatch(tree, k, None)
    {
      var n: TrieNode<T> := this;
      best := None;
      while true
        invariant n.Valid() && |n.k| == |k|
        invariant PT.LongestMatch(n.tree, k, best) == PT.LongestMatch(tree, k, None)
        decreases n.Repr
      {
        var nMask := ToMask(|k|, n.len);
        PrefixOfPad(|k|, n.tree.prefix);
        MaskedEqualIffSamePrefix(n.k, k, n.len);
        MaskDeterminesLength(|k|, n.len, n.len);
        if And(n.k, nMask) == And(k, nMask) {
          if n.value.Some? {
            best := n.value;
          }
          if nMask != MaxValue(|k|) {
            NextBitMaskSelectsBit(k, n.len);
            var next := if And(k, NextBitMask1(|k|, n.len)) != Zero(|k|) then n.right else n.left;
            if next != null {
              n := next;
              continue;
            }
          }
        }
        break;
      }
    }

    /** The old node in a box of its own. */
    method MoveOut() returns (moved: TrieNode<T>)
      requires Valid()
      ensures fresh(moved) && moved.Valid() && moved.Repr == Repr - {this} + {moved}
      ensures moved.tree == tree && moved.k == k
    {
      moved := new TrieNode(k, len, left, right, value, tree, Repr - {this});
    }
  }

  lemma SplitMasks(k1: Word, len1: nat, k2: Word, len2: nat, p: Word)
    requires |k1| == |k2| && len1 <= |k1| && len2 <= |k2|
    requires len1 == |p| && k1 == Pad(|k1|, p) && !(p <= k2[..len2])
    ensures var c, q := CommonPrefixLen(k1, len1, k2, len2), k2[..len2];
            && c < len1 && c <= len2
            && PT.CommonPrefix(p, q) == q[..c]
            && And(k1, ToMask(|k1|, c)) == Pad(|k1|, q[..c])
            && (And(k1, NextBitMask1(|k1|, c)) != Zero(|k1|) <==> p[c])
  {
    PrefixOfPad(|k1|, p);
    var c, q := CommonPrefixLen(k1, len1, k2, len2), k2[..len2];
    CommonPrefixMeaning(k1, len1, k2, len2);
    CommonPrefixFound(k1, len1, k2, len2);
    MaskKeepsPrefix(k1, c);
    assert k1[..c] == q[..c];
    assert p[..c] == q[..c];
    NextBitMaskSelectsBit(k1, c);
  }

  lemma InsertFacts<T>(t: PT.Tree<T>, q: Word, v: T, w: nat)
    requires PT.WellFormed(t) && PT.Bounded(t, w) && |q| <= w
    ensures PT.WellFormed(PT.Insert(t, q, v)) && PT.Bounded(PT.Insert(t, q, v), w)
    ensures PT.Contents(PT.Insert(t, q, v)) == PT.Contents(t)[q := v]
    ensures PT.Lookup(t, q) == Get(PT.Contents(t), q)
    ensures t.Nil? ==> PT.Insert(t, q, v) == PT.Leaf(q, v)
  {
    PT.InsertKeepsInvariant(t, q, v, w);
    PT.InsertContents(t, q, v, w);
    PT.LookupIsContents(t, q);
  }

  /** The routing table for addresses of `width` bits. */
  class IpLookupTable<T> {
    const width: nat
    var root: TrieNode?<T>
    ghost var tree: PT.Tree<T>
    ghost var Repr: set<TrieNode<T>>

    ghost predicate Valid()
      reads this, Repr
    {
      && (root == null ==> tree.Nil?)
      && (root != null ==> root in Repr && root.Repr <= Repr)
      && (root != null ==> root.Valid() && root.tree == tree && |root.k| == width)
      && PT.WellFormed(tree)
      && PT.Bounded(tree, width)
    }

    /** The stored prefixes with their values. */
    ghost function Contents(): map<Word, T>
      reads this
    {
      PT.Contents(tree)
    }

    constructor (width: nat)
      ensures Valid() && fresh(Repr) && this.width == width && tree == PT.Nil && Contents() == map[]
    {
      this.width, root, tree, Repr := width, null, PT.Nil, {};
    }

    /** A prefix longer than the address makes the source panic. */
    method Insert(prefix: Word, prefixLen: nat, t: T) returns (r: Option<T>)
      requires Valid() && |prefix| == width && prefixLen <= width
      modifies this, Repr
      ensures Valid() && fresh(Repr - old(Repr))
      ensures tree == PT.Insert(old(tree), prefix[..prefixLen], t)
      ensures Contents() == old(Contents())[prefix[..prefixLen] := t]
      ensures r == Get(old(Contents()), prefix[..prefixLen])
    {
      ghost var q := prefix[..prefixLen];
      MaskKeepsPrefix(prefix, prefixLen);
      var k := And(prefix, ToMask(width, prefixLen));
      assert k[..prefixLen] == q;
      InsertFacts(tree, q, t, width);
      if root == null {
        root := new TrieNode(k, prefixLen, null, null, Some(t), PT.Leaf(q, t), {});
        r := None;
      } else {
        r := root.Insert(k, prefixLen, t);
      }
      tree, Repr := root.tree, Repr + root.Repr;
    }

    method Remove(prefix: Word, prefixLen: nat) returns (r: Option<T>)
      requires Valid() && |prefix| == width && prefixLen <= width
      modifies this, Repr
      ensures Valid() && Repr == old(Repr)
      ensures tree == PT.Remove(old(tree), prefix[..prefixLen])
      ensures Contents() == old(Contents()) - {prefix[..prefixLen]}
      ensures r == Get(old(Contents()), prefix[..prefixLen])
    {
      ghost var q := prefix[..prefixLen];
      PT.RemoveKeepsInvariant(tree, q, width);
      PT.RemoveContents(tree, q);
      PT.LookupIsContents(tree, q);
      if root == null {
        r := None;
      } else {
        r, root := root.Remove(prefix, prefixLen);
      }
      tree := PT.Remove(tree, q);
    }

    method LongestMatch(addr: Word) returns (r: Option<T>)
      requires Valid() && |addr| == width
      ensures PT.IsLongestMatch(Contents(), addr, r)
    {
      PT.LongestMatchCorrect(tree, addr);
      if root == null {
        r := None;
      } else {
        r := root.LongestMatch(addr);
      }
    }

    method IsEmpty() returns (r: bool)
      requires Valid()
      ensures r <==> Contents() == map[]
    {
      PT.EmptyIffNil(tree);
      r := root == null;
    }

    /** Inserts all of a list of entries into a new table. */
    static method FromIter(width: nat, items: seq<Entry<T>>) returns (table: IpLookupTable<T>)
      requires forall e :: e in items ==> e.Fits(width)
      ensures table.Valid() && fresh(table) && fresh(table.Repr) && table.width == width
      ensures table.tree == PT.Run(Inserts(Pairs(items, width)))
    {
      table := new IpLookupTable(width);
      assert Inserts(Pairs(items[..0], width)) == [] && PT.Run<T>([]) == PT.Nil;
      for i := 0 to |items|
        invariant table.Valid() && fresh(table) && fresh(table.Repr) && table.width == width
        invariant table.tree == PT.Run(Inserts(Pairs(items[..i], width)))
      {
        RunPrefix(items, i, width);
        var _ := table.Insert(items[i].key, items[i].len, items[i].value);
      }
      assert items[..|items|] == items;
    }

    method Iterate() returns (it: Iter<T>)
      requires Valid()
      ensures fresh(it) && it.Valid() && it.width == width && it.Remaining() == Items(tree)
    {
      it := new Iter(width, if root == null then [] else [root], if root == null then [] else [tree]);
      assert StackItems([tree]) == Items(tree) + StackItems([]);
    }
  }

  /** What iteration yields: a masked key, the length of the prefix, and the value. */
  datatype Entry<T> = Entry(key: Word, len: nat, value: T) {
    predicate Fits(width: nat) {
      |key| == width && len <= width
    }

    function Pair(): (Word, T)
      requires len <= |key|
    {
      (key[..len], value)
    }
  }

  function Pairs<T>(items: seq<Entry<T>>, width: nat): seq<(Word, T)>
    requires forall e :: e in items ==> e.Fits(width)
  {
    assert forall i :: 0 <= i < |items| ==> items[i].Fits(width);
    seq(|items|, i requires 0 <= i < |items| => items[i].Pair())
  }

  lemma RunSnoc<T>(items: seq<Entry<T>>, e: Entry<T>, width: nat)
    requires forall x :: x in items ==> x.Fits(width)
    requires e.Fits(width)
    ensures PT.Run(Inserts(Pairs(items + [e], width)))
         == PT.Insert(PT.Run(Inserts(Pairs(items, width))), e.key[..e.len], e.value)
  {
    var n := |items|;
    var pairs := Pairs(items, width);
    assert Pairs(items + [e], width) == pairs + [e.Pair()];
    var ops := Inserts(pairs + [e.Pair()]);
    assert ops[..n] == Inserts(pairs);
    assert ops[n] == PT.OpInsert(e.key[..e.len], e.value);
  }

  lemma RunPrefix<T>(items: seq<Entry<T>>, i: nat, width: nat)
    requires i < |items| && forall x :: x in items ==> x.Fits(width)
    ensures items[i].Fits(width)
    ensures PT.Run(Inserts(Pairs(items[..i + 1], width)))
         == PT.Insert(PT.Run(Inserts(Pairs(items[..i], width))), items[i].key[..items[i].len], items[i].value)
  {
    assert items[..i + 1] == items[..i] + [items[i]];
    RunSnoc(items[..i], items[i], width);
  }

  /** Iteration with an explicit stack of nodes, its top at the end. */
  class Iter<T> {
    const width: nat
    var nodes: seq<TrieNode<T>>
    ghost var trees: seq<PT.Tree<T>>

    ghost predicate Valid()
      reads this, nodes, set i, o | 0 <= i < |nodes| && o in nodes[i].Repr :: o
    {
      && |trees| == |nodes|
      && forall i :: 0 <= i < |nodes| ==>
           nodes[i].Valid() && |nodes[i].k| == width && nodes[i].tree == trees[i]
    }

    /** What is still to be yielded. */
    ghost function Remaining(): seq<(Word, T)>
      reads this
    {
      StackItems(trees)
    }

    constructor (width: nat, nodes: seq<TrieNode<T>>, ghost trees: seq<PT.Tree<T>>)
      ensures this.width == width && this.nodes == nodes && this.trees == trees
    {
      this.width, this.nodes, this.trees := width, nodes, trees;
    }

    method Next() returns (r: Option<Entry<T>>)
      requires Valid()
      modifies this
      ensures Valid()
      ensures r.None? ==> old(Remaining()) == Remaining() == []
      ensures r.Some? ==>
        var e := r.value;
        && e.Fits(width) && e.key == Pad(width, e.key[..e.len])
        && old(Remaining()) == [e.Pair()] + Remaining()
    {
      while true
        invariant Valid() && Remaining() == old(Remaining())
        decreases StackSize(trees)
      {
        if nodes == [] {
          return None;
        }
        ghost var before := trees;
        var n := Pop();
        PopAndPush(before);
        PrefixOfPad(width, n.tree.prefix);
        if n.value.Some? {
          assert OwnItem(n.tree) == [(n.tree.prefix, n.value.value)];
          return Some(Entry(n.k, n.len, n.value.value));
        }
      }
    }

    /** Takes the top node off the stack and puts its children on it, the left one on top. */
    method Pop() returns (n: TrieNode<T>)
      requires Valid() && nodes != []
      modifies this
      ensures Valid() && n.Valid() && |n.k| == width
      ensures n.tree == old(trees)[|old(trees)| - 1] && n.tree.Node?
      ensures trees == Pushed(old(trees)[..|old(trees)| - 1], n.tree)
    {
      n := nodes[|nodes| - 1];
      nodes, trees := nodes[..|nodes| - 1], trees[..|trees| - 1];
      PushChildren(n);
    }

    method PushChildren(n: TrieNode<T>)
      requires Valid() && n.Valid() && |n.k| == width
      modifies this
      ensures Valid() && n.tree.Node? && trees == Pushed(old(trees), n.tree)
    {
      var right, left := n.right, n.left;
      ghost var t := n.tree;
      assert IsBox(right, t.right);
      assert IsBox(left, t.left);
      Push(right, t.right);
      Push(left, t.left);
    }

    ghost predicate IsBox(c: TrieNode?<T>, t: PT.Tree<T>)
      reads c, if c == null then {} else c.Repr
    {
      if c == null then t.Nil? else c.Valid() && c.tree == t && |c.k| == width
    }

    method Push(c: TrieNode?<T>, ghost t: PT.Tree<T>)
      requires Valid() && IsBox(c, t)
      modifies this
      ensures Valid() && trees == PushChild(old(trees), t)
    {
      if c != null {
        nodes, trees := nodes + [c], trees + [t];
      }
    }
  }

  /** The stack after the children of `t` are pushed, the left one last. */
  ghost function Pushed<T>(stack: seq<PT.Tree<T>>, t: PT.Tree<T>): seq<PT.Tree<T>>
    requires t.Node?
  {
    PushChild(PushChild(stack, t.right), t.left)
  }

  ghost function PushChild<T>(stack: seq<PT.Tree<T>>, c: PT.Tree<T>): seq<PT.Tree<T>> {
    if c.Node? then stack + [c] else stack
  }

  ghost function TreeSize<T>(t: PT.Tree<T>): nat {
    if t.Nil? then 0 else 1 + TreeSize(t.left) + TreeSize(t.right)
  }

  ghost function StackSize<T>(stack: seq<PT.Tree<T>>): nat {
    if stack == [] then 0 else TreeSize(stack[|stack| - 1]) + StackSize(stack[..|stack| - 1])
  }

  lemma PushOne<T>(stack: seq<PT.Tree<T>>, c: PT.Tree<T>)
    ensures StackItems(PushChild(stack, c)) == Items(c) + StackItems(stack)
    ensures StackSize(PushChild(stack, c)) == TreeSize(c) + StackSize(stack)
  {
    assert (stack + [c])[..|stack|] == stack;
  }

  lemma Regroup<X>(a: seq<X>, b: seq<X>, c: seq<X>, d: seq<X>)
    ensures (a + b + c) + d == a + (b + (c + d))
  {}

  lemma PopAndPush<T>(stack: seq<PT.Tree<T>>)
    requires stack != [] && stack[|stack| - 1].Node?
    ensures var t, below := stack[|stack| - 1], stack[..|stack| - 1];
            && StackItems(stack) == OwnItem(t) + StackItems(Pushed(below, t))
            && StackSize(Pushed(below, t)) < StackSize(stack)
  {
    var t, below := stack[|stack| - 1], stack[..|stack| - 1];
    PushOne(below, t.right);
    PushOne(PushChild(below, t.right), t.left);
    Regroup(OwnItem(t), Items(t.left), Items(t.right), StackItems(below));
  }

  lemma PairsSnoc<T>(items: seq<Entry<T>>, e: Entry<T>, width: nat)
    requires forall x :: x in items ==> x.Fits(width)
    requires e.Fits(width)
    ensures Pairs(items + [e], width) == Pairs(items, width) + [e.Pair()]
  {}

  lemma OneMore<X>(a: seq<X>, x: X, c: seq<X>)
    ensures a + ([x] + c) == (a + [x]) + c
  {}

  /** Everything that iterating over a table yields. */
  method Collect<T>(table: IpLookupTable<T>) returns (out: seq<Entry<T>>)
    requires table.Valid()
    ensures forall e :: e in out ==> e.Fits(table.width)
    ensures Pairs(out, table.width) == Items(table.tree)
  {
    var it := table.Iterate();
    out := [];
    ghost var done: seq<(Word, T)> := [];
    ghost var todo := it.Remaining();
    var next := it.Next();
    while next.Some?
      invariant it.Valid() && it.width == table.width && fresh(it)
      invariant forall e :: e in out ==> e.Fits(table.width)
      invariant next.Some? ==> next.value.Fits(it.width)
      invariant done == Pairs(out, table.width)
      invariant Items(table.tree) == done + todo
      invariant next.Some? ==> todo == [next.value.Pair()] + it.Remaining()
      invariant next.None? ==> todo == []
      decreases |todo|
    {
      PairsSnoc(out, next.value, table.width);
      OneMore(done, next.value.Pair(), it.Remaining());
      done, todo := done + [next.value.Pair()], it.Remaining();
      out := out + [next.value];
      next := it.Next();
    }
  }

  /** Iterating over a table and inserting what comes out into a new table gives a table with
      the same trie; the entries come sorted and each exactly once. */
  method Rebuild<T>(table: IpLookupTable<T>) returns (out: seq<Entry<T>>, copy: IpLookupTable<T>)
    requires table.Valid()
    ensures copy.Valid() && fresh(copy) && copy.tree == table.tree
    ensures forall e :: e in out ==> e.Fits(table.width)
    ensures StrictlySorted(table.width, Pairs(out, table.width))
    ensures forall q, v :: (q, v) in Pairs(out, table.width) <==>
              q in table.Contents() && table.Contents()[q] == v
  {
    out := Collect(table);
    copy := IpLookupTable<T>.FromIter(table.width, out);
    RebuildGivesSameTrie(table.tree, table.width);
    ItemsSorted(table.tree, table.width);
    forall q, v ensures (q, v) in Items(table.tree) <==> q in table.Contents() && table.Contents()[q] == v {
      ItemsAreContents(table.tree, q, v);
    }
  }

  /** `n` is a valid box with `w`-bit keys that holds `t`, made of nodes in `from`. */
  ghost predicate IsTree<T>(n: TrieNode?<T>, t: PT.Tree<T>, w: nat, from: set<TrieNode<T>>)
    reads n, if n == null then {} else n.Repr
  {
    if n == null then t.Nil? else n.Valid() && n.tree == t && |n.k| == w && n.Repr <= from
  }

  /** How often an insertion of `q` goes on to a child. */
  ghost function StepsDown<T>(t: PT.Tree<T>, q: Word): nat {
    if t.Node? && t.prefix < q then 1 + StepsDown(PT.Child(t, q[|t.prefix|]), q) else 0
  }

  lemma PrefixOfPad(w: nat, p: Word)
    requires |p| <= w
    ensures Pad(w, p)[..|p|] == p && |Pad(w, p)| == w
  {}

  /** The length computed with the exclusive or is that of the common prefix of the two keys. */
  lemma CommonPrefixFound(k1: Word, len1: nat, k2: Word, len2: nat)
    requires |k1| == |k2| && len1 <= |k1| && len2 <= |k2|
    ensures PT.CommonPrefix(k1[..len1], k2[..len2]) == k2[..len2][..CommonPrefixLen(k1, len1, k2, len2)]
  {
    CommonPrefixMeaning(k1, len1, k2, len2);
    var c := CommonPrefixLen(k1, len1, k2, len2);
    var a, b := k1[..len1], k2[..len2];
    var p := PT.CommonPrefix(a, b);
    assert a[..c] == b[..c] by { assert a[..c] == k1[..c] && b[..c] == k2[..c]; }
    PT.CommonPrefixIsLongest(a, b, b[..c]);
  }
}
