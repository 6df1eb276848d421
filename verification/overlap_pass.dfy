/**
 The first pass of the hierarchy measurement: one fold over the ROA blocks
 in input order. It keeps the union of every address seen so far, counts
 each block that meets that union, and remembers the counted blocks for the
 second pass and every block for the covering search.
 */
module OverlapPass {
  import opened Cidr

  /** The script's globals after some rows have been read. */
  datatype State = State(
    count: nat,              // count_overlap_no_hierarchy
    toCheck: seq<Block>,     // roas_to_check
    allRoas: seq<Block>,     // all_roas
    addresses: set<nat>)     // all_ipaddresses

  const Initial: State := State(0, [], [], {})

  /** A set meets a block's address set exactly when it holds an address of the block. */
  lemma MeetsIffShares(u: set<nat>, b: Block)
    requires Valid(b)
    ensures u * Addresses(b) != {} <==> exists a :: a in u && InBlock(b, a)
  {
    if u * Addresses(b) != {} {
      var a :| a in u * Addresses(b);
    }
    if exists a :: a in u && InBlock(b, a) {
      var a :| a in u && InBlock(b, a);
      assert a in u * Addresses(b);
    }
  }

  /**
   One iteration of the row loop: the block joins `all_roas` and the union;
   it is counted and appended to `roas_to_check` exactly when it shares an
   address with a block seen before.
   */
  function Step(st: State, b: Block): (r: State)
    requires Valid(b)
    ensures r.allRoas == st.allRoas + [b]
    ensures forall a: nat :: a in r.addresses <==> a in st.addresses || InBlock(b, a)
    ensures r.toCheck == st.toCheck + (if exists a :: a in st.addresses && InBlock(b, a) then [b] else [])
    ensures r.count == st.count + |r.toCheck| - |st.toCheck|
  {
    MeetsIffShares(st.addresses, b);
    var intersect := st.addresses * Addresses(b);
    var union := st.addresses + Addresses(b);
    if intersect != {} then
      State(st.count + 1, st.toCheck + [b], st.allRoas + [b], union)
    else
      State(st.count, st.toCheck, st.allRoas + [b], union)
  }

  /** Address `a` lies in one of the blocks of `roas`. */
  predicate Covered(roas: seq<Block>, a: nat)
    requires AllValid(roas)
  {
    exists x | x in roas :: InBlock(x, a)
  }

  /**
   One row read against the loop's invariant that `all_ipaddresses` holds exactly
   the addresses of `all_roas`: the row is counted and appended to `roas_to_check`
   exactly when it overlaps a block already in `all_roas`, and the invariant
   holds again afterwards.
   */
  lemma StepAgainstRows(st: State, b: Block)
    requires Valid(b) && AllValid(st.allRoas)
    requires forall a: nat :: a in st.addresses <==> Covered(st.allRoas, a)
    ensures AllValid(Step(st, b).allRoas)
    ensures Step(st, b).toCheck == st.toCheck + (if exists x | x in st.allRoas :: Overlaps(x, b) then [b] else [])
    ensures Step(st, b).count == st.count + |Step(st, b).toCheck| - |st.toCheck|
    ensures forall a: nat :: a in Step(st, b).addresses <==> Covered(Step(st, b).allRoas, a)
  {
    var r := Step(st, b);
    if exists a :: a in st.addresses && InBlock(b, a) {
      var a :| a in st.addresses && InBlock(b, a);
      var x :| x in st.allRoas && InBlock(x, a);
      assert Overlaps(x, b);
    }
    if exists x | x in st.allRoas :: Overlaps(x, b) {
      var x :| x in st.allRoas && Overlaps(x, b);
      var a := if First(x) <= First(b) then First(b) else First(x);
      assert InBlock(x, a) && InBlock(b, a);
    }
    forall a: nat
      ensures a in r.addresses <==> Covered(r.allRoas, a)
    {
      if Covered(r.allRoas, a) {
        var x :| x in r.allRoas && InBlock(x, a);
        assert x in st.allRoas || x == b;
      }
      if a in st.addresses {
        var x :| x in st.allRoas && InBlock(x, a);
        assert x in r.allRoas;
      }
      if InBlock(b, a) {
        assert b in r.allRoas;
      }
    }
  }

  /** The state after the first `n` rows: every one of them is in `all_roas`, and the count is the length of `roas_to_check`. */
  function Fold(rows: seq<Block>, n: nat): (r: State)
    requires AllValid(rows) && n <= |rows|
    ensures r.allRoas == rows[..n]
    ensures r.count == |r.toCheck| <= n
  {
    if n == 0 then Initial
    else
      assert rows[..n] == rows[..n - 1] + [rows[n - 1]];
      Step(Fold(rows, n - 1), rows[n - 1])
  }

  /** Address `a` lies in one of the first `n` rows, by interval bounds. */
  predicate InUnion(rows: seq<Block>, n: nat, a: nat)
    requires AllValid(rows) && n <= |rows|
  {
    exists j :: 0 <= j < n && InBlock(rows[j], a)
  }

  /** Row `i` shares an address with some earlier row. */
  predicate OverlapsEarlier(rows: seq<Block>, i: nat)
    requires AllValid(rows) && i < |rows|
  {
    exists j :: 0 <= j < i && Overlaps(rows[j], rows[i])
  }

  /** Row `i` contains, or is contained in, some earlier row. */
  predicate NestedWithEarlier(rows: seq<Block>, i: nat)
    requires AllValid(rows) && i < |rows|
  {
    exists j :: 0 <= j < i && (Contains(rows[j], rows[i]) || Contains(rows[i], rows[j]))
  }

  /** Reference for `roas_to_check`: the rows among the first `n` that overlap an earlier one, in input order. */
  function Flagged(rows: seq<Block>, n: nat): seq<Block>
    requires AllValid(rows) && n <= |rows|
  {
    if n == 0 then []
    else Flagged(rows, n - 1) + (if OverlapsEarlier(rows, n - 1) then [rows[n - 1]] else [])
  }

  lemma {:induction false} FlaggedAreRows(rows: seq<Block>, n: nat)
    requires AllValid(rows) && n <= |rows|
    ensures forall b | b in Flagged(rows, n) :: b in rows
  {
    if n > 0 {
      FlaggedAreRows(rows, n - 1);
    }
  }

  /** Intersecting the union of the first `i` rows is overlapping one of them. */
  lemma MeetsUnionIffOverlapsEarlier(rows: seq<Block>, i: nat, u: set<nat>)
    requires AllValid(rows) && i < |rows|
    requires forall a: nat :: a in u <==> InUnion(rows, i, a)
    ensures u * Addresses(rows[i]) != {} <==> OverlapsEarlier(rows, i)
  {
    if u * Addresses(rows[i]) != {} {
      var a :| a in u * Addresses(rows[i]);
      var j :| 0 <= j < i && InBlock(rows[j], a);
      assert Overlaps(rows[j], rows[i]);
    }
    if OverlapsEarlier(rows, i) {
      var j :| 0 <= j < i && Overlaps(rows[j], rows[i]);
      IntersectIffOverlaps(rows[j], rows[i]);
      var a :| a in Addresses(rows[j]) * Addresses(rows[i]);
      assert InUnion(rows, i, a);
    }
  }

  /** Adding row `n - 1`'s addresses to the union of the rows before it gives the union of the first `n` rows. */
  lemma UnionGrows(rows: seq<Block>, n: nat, u: set<nat>, u': set<nat>)
    requires AllValid(rows) && 0 < n <= |rows|
    requires forall a: nat :: a in u <==> InUnion(rows, n - 1, a)
    requires forall a: nat :: a in u' <==> a in u || InBlock(rows[n - 1], a)
    ensures forall a: nat :: a in u' <==> InUnion(rows, n, a)
  {
  }

  /** The invariant of the row loop, after every prefix of the input. */
  lemma {:induction false} FoldInvariant(rows: seq<Block>, n: nat)
    requires AllValid(rows) && n <= |rows|
    ensures Fold(rows, n).allRoas == rows[..n]
    ensures forall a: nat :: a in Fold(rows, n).addresses <==> InUnion(rows, n, a)
    ensures Fold(rows, n).toCheck == Flagged(rows, n)
    ensures Fold(rows, n).count == |Fold(rows, n).toCheck|
  {
    if n > 0 {
      FoldInvariant(rows, n - 1);
      var st := Fold(rows, n - 1);
      assert Fold(rows, n) == Step(st, rows[n - 1]);
      MeetsUnionIffOverlapsEarlier(rows, n - 1, st.addresses);
      MeetsIffShares(st.addresses, rows[n - 1]);
      UnionGrows(rows, n, st.addresses, Fold(rows, n).addresses);
    }
  }

  /** Row `i` is counted, and appended to `roas_to_check`, exactly when it overlaps an earlier row. */
  lemma CountedIffOverlapsEarlier(rows: seq<Block>, i: nat)
    requires AllValid(rows) && i < |rows|
    ensures Fold(rows, i + 1).count == Fold(rows, i).count + 1 <==> OverlapsEarlier(rows, i)
    ensures Fold(rows, i + 1).toCheck == Fold(rows, i).toCheck + [rows[i]] <==> OverlapsEarlier(rows, i)
    ensures !OverlapsEarlier(rows, i) ==> Fold(rows, i + 1).count == Fold(rows, i).count
    ensures !OverlapsEarlier(rows, i) ==> Fold(rows, i + 1).toCheck == Fold(rows, i).toCheck
    ensures i == 0 ==> Fold(rows, 1).count == 0 && Fold(rows, 1).toCheck == []
  {
    FoldInvariant(rows, i);
    MeetsUnionIffOverlapsEarlier(rows, i, Fold(rows, i).addresses);
    if !OverlapsEarlier(rows, i) {
      assert |Fold(rows, i).toCheck + [rows[i]]| != |Fold(rows, i).toCheck|;
    }
  }

  /** For CIDR blocks an overlap with an earlier row is always a nesting with it. */
  lemma OverlapsIffNested(rows: seq<Block>, i: nat)
    requires AllValid(rows) && i < |rows|
    ensures OverlapsEarlier(rows, i) <==> NestedWithEarlier(rows, i)
  {
    if OverlapsEarlier(rows, i) {
      var j :| 0 <= j < i && Overlaps(rows[j], rows[i]);
      NestedOrDisjoint(rows[j], rows[i]);
    }
    if NestedWithEarlier(rows, i) {
      var j :| 0 <= j < i && (Contains(rows[j], rows[i]) || Contains(rows[i], rows[j]));
      assert Overlaps(rows[j], rows[i]);
    }
  }

  /** The whole first pass over the rows. */
  function FirstPass(rows: seq<Block>): (r: State)
    requires AllValid(rows)
    ensures r.allRoas == rows
    ensures forall a: nat :: a in r.addresses <==> InUnion(rows, |rows|, a)
    ensures r.toCheck == Flagged(rows, |rows|)
    ensures r.count == |r.toCheck|
  {
    FoldInvariant(rows, |rows|);
    assert rows[..|rows|] == rows;
    Fold(rows, |rows|)
  }
}
