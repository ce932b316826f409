/** The address ranges in which DNS is blocked: everything but the configured servers. */
module BlockRanges {

  /** The largest address, for both versions. */
  const MAX_V4: nat := 0xffff_ffff
  const MAX_V6: nat := 0xffff_ffff_ffff_ffff_ffff_ffff_ffff_ffff

  type Range = (nat, nat)

  // ----- sorting -----

  predicate Increasing(s: seq<nat>) {
    forall i, j :: 0 <= i < j < |s| ==> s[i] < s[j]
  }

  predicate Sorted(s: seq<nat>) {
    forall i, j :: 0 <= i < j < |s| ==> s[i] <= s[j]
  }

  function Place(x: nat, s: seq<nat>): seq<nat> {
    if s == [] || x <= s[0] then [x] + s else [s[0]] + Place(x, s[1..])
  }

  function Sort(s: seq<nat>): seq<nat> {
    if s == [] then [] else Place(s[0], Sort(s[1..]))
  }

  lemma {:induction false} PlacePermutes(x: nat, s: seq<nat>)
    ensures multiset(Place(x, s)) == multiset(s) + multiset{x}
  {
    if s != [] && s[0] < x {
      PlacePermutes(x, s[1..]);
      assert s == [s[0]] + s[1..];
    }
  }

  lemma {:induction false} PlaceSorts(x: nat, s: seq<nat>)
    requires Sorted(s)
    ensures Sorted(Place(x, s))
  {
    if s != [] && s[0] < x {
      PlaceSorts(x, s[1..]);
      PlacePermutes(x, s[1..]);
      var r := Place(x, s[1..]);
      forall k | 0 <= k < |r| ensures s[0] <= r[k] {
        assert r[k] in multiset(s[1..]) + multiset{x};
      }
    }
  }

  lemma {:induction false} SortSorts(s: seq<nat>)
    ensures Sorted(Sort(s)) && multiset(Sort(s)) == multiset(s)
  {
    if s != [] {
      SortSorts(s[1..]);
      PlaceSorts(s[0], Sort(s[1..]));
      PlacePermutes(s[0], Sort(s[1..]));
      assert s == [s[0]] + s[1..];
    }
  }

  /** Keeps the first of every run of equal addresses. */
  method Dedup(a: seq<nat>) returns (r: seq<nat>)
    requires Sorted(a)
    ensures Increasing(r) && |r| <= |a|
    ensures forall x :: x in r <==> x in a
  {
    r := [];
    for i := 0 to |a|
      invariant Increasing(r) && |r| <= i
      invariant forall x :: x in r <==> x in a[..i]
      invariant i > 0 ==> r != [] && r[|r| - 1] == a[i - 1]
    {
      assert a[..i + 1] == a[..i] + [a[i]];
      if r == [] || r[|r| - 1] != a[i] {
        r := r + [a[i]];
      }
    }
    assert a[..|a|] == a;
  }

  // ----- the ranges between the servers -----

  /** Ascending ranges within the addresses with a gap between any two. */
  predicate Separated(r: seq<Range>, max: nat) {
    && (forall i :: 0 <= i < |r| ==> r[i].0 <= r[i].1 <= max)
    && forall i, j :: 0 <= i < j < |r| ==> r[i].1 + 1 < r[j].0
  }

  predicate Covers(r: seq<Range>, x: nat) {
    exists i :: 0 <= i < |r| && r[i].0 <= x <= r[i].1
  }

  lemma CoversOneMore(r: seq<Range>, p: Range, x: nat)
    ensures Covers(r + [p], x) <==> Covers(r, x) || p.0 <= x <= p.1
  {
    var s := r + [p];
    if Covers(r, x) {
      var i :| 0 <= i < |r| && r[i].0 <= x <= r[i].1;
      assert s[i] == r[i];
    }
    assert s[|r|] == p;
  }

  /** No address strictly between two neighbours is a server. */
  lemma NoneBetween(servers: seq<nat>, i: nat, x: nat)
    requires Increasing(servers) && i <= |servers|
    requires i > 0 ==> servers[i - 1] < x
    requires i < |servers| ==> x < servers[i]
    ensures x !in servers
  {}

  /** The ranges are right about the addresses below `n`. */
  ghost predicate RightBelow(r: seq<Range>, servers: seq<nat>, n: nat) {
    forall x: nat :: x < n ==> (Covers(r, x) <==> x !in servers)
  }

  /** `server` is number `i`, or stands behind all of them; `previous` comes behind the one before. */
  ghost predicate Between(servers: seq<nat>, i: nat, previous: nat, server: nat) {
    && Increasing(servers) && i <= |servers| && previous <= server
    && (i > 0 ==> servers[i - 1] < previous)
    && (i < |servers| ==> server <= servers[i])
  }

  /** Adding the range between two servers makes the ranges right up to the second. */
  lemma RangeAdded(servers: seq<nat>, i: nat, r: seq<Range>, previous: nat, server: nat)
    requires Between(servers, i, previous, server) && previous < server && RightBelow(r, servers, previous)
    requires forall j :: 0 <= j < |r| ==> r[j].1 + 1 < previous
    ensures RightBelow(r + [(previous, server - 1)], servers, server)
  {
    forall x: nat | x < server ensures Covers(r + [(previous, server - 1)], x) <==> x !in servers {
      CoversOneMore(r, (previous, server - 1), x);
      if previous <= x {
        NoneBetween(servers, i, x);
      }
    }
  }

  /** A server itself is behind all ranges. */
  lemma ServerSkipped(servers: seq<nat>, i: nat, r: seq<Range>)
    requires i < |servers| && RightBelow(r, servers, servers[i])
    requires forall j :: 0 <= j < |r| ==> r[j].1 < servers[i]
    ensures RightBelow(r, servers, servers[i] + 1)
  {
    assert servers[i] in servers;
  }

  method GetBlockRanges(servers: seq<nat>, max: nat) returns (result: seq<Range>)
    requires Increasing(servers) && forall s :: s in servers ==> s <= max
    ensures Separated(result, max) && |result| <= |servers| + 1
    ensures forall x: nat :: x <= max ==> (Covers(result, x) <==> x !in servers)
  {
    result := [];
    var previous: nat := 0;
    for i := 0 to |servers|
      invariant previous <= max
      invariant previous == if i == 0 then 0 else servers[i - 1] + 1
      invariant Separated(result, max) && |result| <= i
      invariant forall j :: 0 <= j < |result| ==> result[j].1 + 1 < previous
      invariant RightBelow(result, servers, previous)
    {
      var server := servers[i];
      assert server in servers;
      if previous < server {
        RangeAdded(servers, i, result, previous, server);
        result := result + [(previous, server - 1)];
      }
      ServerSkipped(servers, i, result);
      if server == max {
        return;
      }
      previous := server + 1;
    }
    RangeAdded(servers, |servers|, result, previous, max + 1);
    result := result + [(previous, max)];
  }

  // ----- there is only one such list -----

  lemma FirstIsLeast(r: seq<Range>, max: nat, x: nat)
    requires Separated(r, max) && Covers(r, x)
    ensures r[0].0 <= x && Covers(r, r[0].0)
  {
    assert r[0].0 <= r[0].0 <= r[0].1;
  }

  lemma FirstRange(r: seq<Range>, max: nat, x: nat)
    requires Separated(r, max) && r != [] && r[0].0 <= x <= r[0].1 + 1
    ensures Covers(r, x) <==> x <= r[0].1
  {}

  lemma TailCovers(r: seq<Range>, max: nat, x: nat)
    requires Separated(r, max) && r != []
    ensures Separated(r[1..], max)
    ensures Covers(r[1..], x) <==> Covers(r, x) && r[0].1 < x
  {
    if Covers(r, x) && r[0].1 < x {
      var i :| 0 <= i < |r| && r[i].0 <= x <= r[i].1;
      assert r[1..][i - 1] == r[i];
    }
    if Covers(r[1..], x) {
      var i :| 0 <= i < |r[1..]| && r[1..][i].0 <= x <= r[1..][i].1;
      assert r[1..][i] == r[i + 1];
    }
  }

  lemma SameFirstRange(r: seq<Range>, s: seq<Range>, max: nat)
    requires Separated(r, max) && Separated(s, max) && r != [] && s != []
    requires forall x: nat :: x <= max ==> (Covers(r, x) <==> Covers(s, x))
    ensures r[0] == s[0]
  {
    assert r[0].0 <= r[0].0 <= r[0].1 && s[0].0 <= s[0].0 <= s[0].1;
    assert Covers(r, r[0].0) && Covers(s, s[0].0);
    FirstIsLeast(r, max, s[0].0);
    FirstIsLeast(s, max, r[0].0);
    if r[0].1 < s[0].1 {
      FirstRange(r, max, r[0].1 + 1);
      FirstRange(s, max, r[0].1 + 1);
    } else if s[0].1 < r[0].1 {
      FirstRange(r, max, s[0].1 + 1);
      FirstRange(s, max, s[0].1 + 1);
    }
  }

  /** Two separated lists that cover the same addresses are the same list. */
  lemma {:induction false} OnlyOneList(r: seq<Range>, s: seq<Range>, max: nat)
    requires Separated(r, max) && Separated(s, max)
    requires forall x: nat :: x <= max ==> (Covers(r, x) <==> Covers(s, x))
    ensures r == s
    decreases |r|
  {
    if r == [] {
      if s != [] {
        assert s[0].0 <= s[0].0 <= s[0].1;
        assert Covers(s, s[0].0);
        assert false;
      }
    } else if s == [] {
      assert r[0].0 <= r[0].0 <= r[0].1;
      assert Covers(r, r[0].0);
      assert false;
    } else {
      SameFirstRange(r, s, max);
      forall x: nat | x <= max
        ensures Covers(r[1..], x) <==> Covers(s[1..], x)
      {
        TailCovers(r, max, x);
        TailCovers(s, max, x);
      }
      TailCovers(r, max, 0);
      TailCovers(s, max, 0);
      OnlyOneList(r[1..], s[1..], max);
      assert r == [r[0]] + r[1..] && s == [s[0]] + s[1..];
    }
  }

  // ----- both versions -----

  datatype Address = V4(number: nat) | V6(number: nat) {
    predicate Ok() {
      number <= if V4? then MAX_V4 else MAX_V6
    }
  }

  function NumbersOf(dns: seq<Address>, v4: bool): seq<nat> {
    if dns == [] then []
    else (if dns[0].V4? == v4 then [dns[0].number] else []) + NumbersOf(dns[1..], v4)
  }

  lemma {:induction false} NumbersMeaning(dns: seq<Address>, v4: bool, n: nat)
    ensures n in NumbersOf(dns, v4) <==> (if v4 then V4(n) else V6(n)) in dns
  {
    if dns != [] {
      NumbersMeaning(dns[1..], v4, n);
      assert dns == [dns[0]] + dns[1..];
    }
  }

  method RangesOf(dns: seq<Address>, v4: bool) returns (r: seq<Range>)
    requires forall a :: a in dns ==> a.Ok()
    ensures Separated(r, if v4 then MAX_V4 else MAX_V6) && |r| <= |dns| + 1
    ensures forall x: nat :: x <= (if v4 then MAX_V4 else MAX_V6) ==>
      (Covers(r, x) <==> (if v4 then V4(x) else V6(x)) !in dns)
  {
    var numbers := NumbersOf(dns, v4);
    forall n: nat ensures n in numbers <==> (if v4 then V4(n) else V6(n)) in dns {
      NumbersMeaning(dns, v4, n);
    }
    SortSorts(numbers);
    NumbersCount(dns, v4);
    var sorted := Sort(numbers);
    forall n: nat ensures n in sorted <==> n in numbers {
      assert n in multiset(sorted) <==> n in multiset(numbers);
    }
    assert |sorted| == |multiset(sorted)| == |numbers|;
    var servers := Dedup(sorted);
    r := GetBlockRanges(servers, if v4 then MAX_V4 else MAX_V6);
  }

  lemma {:induction false} NumbersCount(dns: seq<Address>, v4: bool)
    ensures |NumbersOf(dns, v4)| <= |dns|
  {
    if dns != [] { NumbersCount(dns[1..], v4); }
  }

  /** DNS to an address is blocked exactly when the address is not one of the servers. */
  method BlockDns(dns: seq<Address>) returns (v4: seq<Range>, v6: seq<Range>)
    requires forall a :: a in dns ==> a.Ok()
    ensures Separated(v4, 0xffff_ffff) && Separated(v6, 0xffff_ffff_ffff_ffff_ffff_ffff_ffff_ffff)
    ensures forall n: nat :: n <= 0xffff_ffff ==> (Covers(v4, n) <==> V4(n) !in dns)
    ensures forall n: nat :: n <= 0xffff_ffff_ffff_ffff_ffff_ffff_ffff_ffff ==> (Covers(v6, n) <==> V6(n) !in dns)
  {
    v4 := RangesOf(dns, true);
    v6 := RangesOf(dns, false);
  }
}
