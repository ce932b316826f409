/** The two routing tables of an interface, one for IPv4 and one for IPv6, as one map from
    masked (address, prefix length) pairs to their owners. */
module RoutingTables {
  import opened Bits
  import opened Wrappers
  import opened IpLookupTrie
  import PT = PrefixTree

  /** An address with a prefix length; `v4` tells 32-bit addresses from 128-bit ones. */
  datatype Cidr = Cidr(v4: bool, addr: Word, len: nat) {
    predicate Ok() {
      |addr| == Width(v4) && len <= |addr|
    }

    /** The bits after the prefix are zeroed. */
    function Masked(): Cidr
      requires Ok()
    {
      this.(addr := And(addr, ToMask(|addr|, len)))
    }

    predicate IsMasked() {
      Ok() && Masked() == this
    }

    function Prefix(): Word
      requires Ok()
    {
      addr[..len]
    }
  }

  function Width(v4: bool): nat {
    if v4 then 32 else 128
  }

  /** The masked pair for a prefix. */
  function FromPrefix(v4: bool, q: Word): Cidr
    requires |q| <= Width(v4)
  {
    Cidr(v4, Pad(Width(v4), q), |q|)
  }

  lemma MaskedIsMasked(c: Cidr)
    requires c.Ok()
    ensures c.Masked().IsMasked() && c.Masked().Prefix() == c.Prefix()
    ensures c.Masked() == FromPrefix(c.v4, c.Prefix())
  {
    MaskKeepsPrefix(c.addr, c.len);
    var m := c.Masked();
    PrefixOfPad(|c.addr|, c.Prefix());
    MaskKeepsPrefix(m.addr, m.len);
  }

  lemma PrefixDetermines(c1: Cidr, c2: Cidr)
    requires c1.IsMasked() && c2.IsMasked()
    ensures c1 == c2 <==> c1.v4 == c2.v4 && c1.Prefix() == c2.Prefix()
  {
    MaskedIsMasked(c1);
    MaskedIsMasked(c2);
  }

  /** The route that an address takes: the longest one that matches it. */
  ghost predicate BestRoute<P>(routes: map<Cidr, P>, v4: bool, addr: Word, c: Cidr) {
    && c in routes && Matches(c, v4, addr)
    && forall c' :: c' in routes && Matches(c', v4, addr) ==> c'.len <= c.len
  }

  ghost predicate Matches(c: Cidr, v4: bool, addr: Word) {
    c.Ok() && c.v4 == v4 && c.Prefix() <= addr
  }

  /** The map of routes says the same as the two tables. */
  ghost predicate Agree<P>(routes: map<Cidr, P>, m4: map<Word, P>, m6: map<Word, P>) {
    forall c: Cidr :: c.IsMasked() ==> AgreesAt(routes, m4, m6, c)
  }

  ghost predicate AgreesAt<P>(routes: map<Cidr, P>, m4: map<Word, P>, m6: map<Word, P>, c: Cidr)
    requires c.Ok()
  {
    Get(routes, c) == Get(if c.v4 then m4 else m6, c.Prefix())
  }

  lemma InsertAgrees<P>(routes: map<Cidr, P>, m4: map<Word, P>, m6: map<Word, P>, c: Cidr, p: P)
    requires Agree(routes, m4, m6) && c.IsMasked()
    ensures Agree(routes[c := p], if c.v4 then m4[c.Prefix() := p] else m4,
                                  if c.v4 then m6 else m6[c.Prefix() := p])
  {
    forall c': Cidr | c'.IsMasked()
      ensures AgreesAt(routes[c := p], if c.v4 then m4[c.Prefix() := p] else m4,
                                       if c.v4 then m6 else m6[c.Prefix() := p], c')
    {
      assert AgreesAt(routes, m4, m6, c');
      PrefixDetermines(c, c');
    }
  }

  lemma RemoveAgrees<P>(routes: map<Cidr, P>, m4: map<Word, P>, m6: map<Word, P>, c: Cidr)
    requires Agree(routes, m4, m6) && c.IsMasked()
    ensures Agree(routes - {c}, if c.v4 then m4 - {c.Prefix()} else m4,
                                if c.v4 then m6 else m6 - {c.Prefix()})
  {
    forall c': Cidr | c'.IsMasked()
      ensures AgreesAt(routes - {c}, if c.v4 then m4 - {c.Prefix()} else m4,
                                     if c.v4 then m6 else m6 - {c.Prefix()}, c')
    {
      assert AgreesAt(routes, m4, m6, c');
      PrefixDetermines(c, c');
    }
  }

  ghost function Given<P>(routes: map<Cidr, P>, ips: set<Cidr>, p: P): map<Cidr, P> {
    map c | c in routes.Keys + ips :: if c in ips then p else routes[c]
  }

  /** The routes in `ips` that have an owner, each once, with that owner. */
  ghost predicate IsDisplaced<P>(displaced: seq<(P, Cidr)>, routes: map<Cidr, P>, ips: set<Cidr>) {
    && (forall i :: 0 <= i < |displaced| ==>
          displaced[i].1 in ips && Get(routes, displaced[i].1) == Some(displaced[i].0))
    && (forall i, j :: 0 <= i < j < |displaced| ==> displaced[i].1 != displaced[j].1)
    && forall c :: c in ips && c in routes ==> (routes[c], c) in displaced
  }

  lemma DropOne<P>(routes: map<Cidr, P>, done: set<Cidr>, c: Cidr)
    ensures routes - done - {c} == routes - (done + {c})
  {}

  lemma GiveOne<P>(routes: map<Cidr, P>, done: set<Cidr>, c: Cidr, p: P)
    requires c !in done
    ensures Given(routes, done, p)[c := p] == Given(routes, done + {c}, p)
    ensures Get(Given(routes, done, p), c) == Get(routes, c)
  {}

  lemma DisplaceOne<P>(displaced: seq<(P, Cidr)>, routes: map<Cidr, P>, done: set<Cidr>, c: Cidr)
    requires IsDisplaced(displaced, routes, done) && c !in done
    ensures IsDisplaced(displaced + (if c in routes then [(routes[c], c)] else []), routes, done + {c})
  {}

  class RoutingTables<P> {
    const rt4: IpLookupTable<P>
    const rt6: IpLookupTable<P>
    // The owners of the routes.
    ghost var routes: map<Cidr, P>
    ghost var Repr: set<object>

    ghost predicate Valid()
      reads this, Repr
      ensures Valid() ==> this in Repr
    {
      && TablesValid()
      && (forall c :: c in routes ==> c.IsMasked())
      && Agree(routes, rt4.Contents(), rt6.Contents())
    }

    ghost predicate TablesValid()
      reads this, Repr
    {
      && this in Repr && rt4 in Repr && rt6 in Repr && rt4 != rt6
      && rt4.Repr <= Repr && rt6.Repr <= Repr && rt4.Repr !! rt6.Repr
      && rt4.Valid() && rt6.Valid() && rt4.width == 32 && rt6.width == 128
    }

    ghost function Table(v4: bool): map<Word, P>
      reads rt4, rt6
    {
      if v4 then rt4.Contents() else rt6.Contents()
    }

    constructor ()
      ensures Valid() && fresh(Repr) && routes == map[]
    {
      rt4 := new IpLookupTable(32);
      rt6 := new IpLookupTable(128);
      routes := map[];
      new;
      Repr := {this, rt4, rt6} + rt4.Repr + rt6.Repr;
    }

    method Insert(c: Cidr, p: P) returns (r: Option<P>)
      requires Valid() && c.IsMasked()
      modifies Repr
      ensures Valid() && fresh(Repr - old(Repr))
      ensures routes == old(routes)[c := p] && r == Get(old(routes), c)
    {
      assert AgreesAt(routes, rt4.Contents(), rt6.Contents(), c);
      InsertAgrees(routes, rt4.Contents(), rt6.Contents(), c, p);
      r := InsertInTable(c.v4, c.addr, c.len, p);
      routes := routes[c := p];
    }

    method InsertInTable(v4: bool, addr: Word, len: nat, p: P) returns (r: Option<P>)
      requires TablesValid() && |addr| == Width(v4) && len <= |addr|
      modifies Repr
      ensures TablesValid() && fresh(Repr - old(Repr)) && routes == old(routes)
      ensures rt4.Contents() == if v4 then old(rt4.Contents())[addr[..len] := p] else old(rt4.Contents())
      ensures rt6.Contents() == if v4 then old(rt6.Contents()) else old(rt6.Contents())[addr[..len] := p]
      ensures r == Get(old(Table(v4)), addr[..len])
    {
      if v4 {
        r := rt4.Insert(addr, len, p);
      } else {
        r := rt6.Insert(addr, len, p);
      }
      Repr := Repr + rt4.Repr + rt6.Repr;
    }

    method Remove(c: Cidr) returns (r: Option<P>)
      requires Valid() && c.IsMasked()
      modifies Repr
      ensures Valid() && fresh(Repr - old(Repr))
      ensures routes == old(routes) - {c} && r == Get(old(routes), c)
    {
      assert AgreesAt(routes, rt4.Contents(), rt6.Contents(), c);
      RemoveAgrees(routes, rt4.Contents(), rt6.Contents(), c);
      r := RemoveFromTable(c.v4, c.addr, c.len);
      routes := routes - {c};
    }

    method RemoveFromTable(v4: bool, addr: Word, len: nat) returns (r: Option<P>)
      requires TablesValid() && |addr| == Width(v4) && len <= |addr|
      modifies Repr
      ensures TablesValid() && fresh(Repr - old(Repr)) && routes == old(routes)
      ensures rt4.Contents() == if v4 then old(rt4.Contents()) - {addr[..len]} else old(rt4.Contents())
      ensures rt6.Contents() == if v4 then old(rt6.Contents()) else old(rt6.Contents()) - {addr[..len]}
      ensures r == Get(old(Table(v4)), addr[..len])
    {
      if v4 {
        r := rt4.Remove(addr, len);
      } else {
        r := rt6.Remove(addr, len);
      }
    }

    /** Drops a set of routes, in any order. */
    method RemoveAll(ips: set<Cidr>)
      requires Valid() && forall c :: c in ips ==> c.IsMasked()
      modifies Repr
      ensures Valid() && fresh(Repr - old(Repr))
      ensures routes == old(routes) - ips
    {
      var todo := ips;
      ghost var done: set<Cidr> := {};
      while todo != {}
        invariant done + todo == ips && Valid() && fresh(Repr - old(Repr))
        invariant routes == old(routes) - done
        decreases todo
      {
        var c :| c in todo;
        var _ := Remove(c);
        DropOne(old(routes), done, c);
        todo, done := todo - {c}, done + {c};
      }
    }

    /** Gives a set of routes to `p`, in any order; returns the owners that they had. */
    method InsertAll(ips: set<Cidr>, p: P) returns (displaced: seq<(P, Cidr)>)
      requires Valid() && forall c :: c in ips ==> c.IsMasked()
      modifies Repr
      ensures Valid() && fresh(Repr - old(Repr))
      ensures routes == Given(old(routes), ips, p)
      ensures IsDisplaced(displaced, old(routes), ips)
    {
      var todo := ips;
      ghost var done: set<Cidr> := {};
      displaced := [];
      while todo != {}
        invariant done + todo == ips && done !! todo && Valid() && fresh(Repr - old(Repr))
        invariant routes == Given(old(routes), done, p)
        invariant IsDisplaced(displaced, old(routes), done)
        decreases todo
      {
        var c :| c in todo;
        GiveOne(old(routes), done, c, p);
        DisplaceOne(displaced, old(routes), done, c);
        var r := Insert(c, p);
        if r.Some? {
          displaced := displaced + [(r.value, c)];
        }
        todo, done := todo - {c}, done + {c};
      }
    }

    /** Finds the owner of the best route for an address. */
    method Find(v4: bool, addr: Word) returns (r: Option<P>)
      requires Valid() && |addr| == (if v4 then 32 else 128)
      ensures r.None? ==> forall c :: c in routes ==> !Matches(c, v4, addr)
      ensures r.Some? ==> exists c :: BestRoute(routes, v4, addr, c) && routes[c] == r.value
    {
      if v4 {
        r := rt4.LongestMatch(addr);
      } else {
        r := rt6.LongestMatch(addr);
      }
      LongestIsBest(v4, addr, r);
    }

    lemma LongestIsBest(v4: bool, addr: Word, r: Option<P>)
      requires Valid() && |addr| == Width(v4) && PT.IsLongestMatch(Table(v4), addr, r)
      ensures r.None? ==> forall c :: c in routes ==> !Matches(c, v4, addr)
      ensures r.Some? ==> exists c :: BestRoute(routes, v4, addr, c) && routes[c] == r.value
    {
      forall c | c in routes && Matches(c, v4, addr)
        ensures c.Prefix() in Table(v4) && Table(v4)[c.Prefix()] == routes[c]
      {
        assert AgreesAt(routes, rt4.Contents(), rt6.Contents(), c);
      }
      if r.Some? {
        var q :| q in Table(v4) && q <= addr && Table(v4)[q] == r.value && PT.LongestIn(Table(v4), addr, q);
        var c := FromPrefix(v4, q);
        PrefixOfPad(Width(v4), q);
        MaskedIsMasked(c);
        assert AgreesAt(routes, rt4.Contents(), rt6.Contents(), c);
        assert BestRoute(routes, v4, addr, c);
      }
    }
  }
}
