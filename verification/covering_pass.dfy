/**
 The second pass of the hierarchy measurement: a worklist over the blocks
 the first pass flagged. For each entry it scans every ROA block once,
 collecting the blocks that strictly cover the entry into a group and
 appending the blocks strictly inside the entry to the worklist, which is
 therefore extended while it is being walked.
 */
module CoveringPass {
  import opened Cidr

  /** `a` is `s` with some elements dropped, the rest kept in order. */
  predicate IsSubsequence<T(==)>(a: seq<T>, s: seq<T>)
    decreases |s|
  {
    if a == [] then true
    else if s == [] then false
    else (a[0] == s[0] && IsSubsequence(a[1..], s[1..])) || IsSubsequence(a, s[1..])
  }

  lemma {:induction false} SubsequenceLength<T>(a: seq<T>, s: seq<T>)
    requires IsSubsequence(a, s)
    ensures |a| <= |s|
    decreases |s|
  {
    if a != [] {
      if a[0] == s[0] && IsSubsequence(a[1..], s[1..]) {
        SubsequenceLength(a[1..], s[1..]);
      } else {
        SubsequenceLength(a, s[1..]);
      }
    }
  }

  /** The branch of the inner loop that adds `x` to the entry's group. */
  predicate Covers(entry: Block, x: Block)
    requires Valid(entry) && Valid(x)
  {
    !Same(entry, x) && Addresses(entry) <= Addresses(x)
  }

  /** The branch of the inner loop that appends `x` to the worklist. */
  predicate Pushes(entry: Block, x: Block)
    requires Valid(entry) && Valid(x)
  {
    !Same(entry, x) && !(Addresses(entry) <= Addresses(x)) && Addresses(x) <= Addresses(entry)
  }

  /** What one scan of the ROA blocks collects for one entry. */
  datatype Scan = Scan(covering: seq<Block>, pushed: seq<Block>)

  lemma CoversIffStrictlyInside(entry: Block, x: Block)
    requires Valid(entry) && Valid(x)
    ensures Covers(entry, x) <==> StrictlyInside(entry, x)
    ensures Pushes(entry, x) <==> StrictlyInside(x, entry)
  {
    SubsetIffContains(x, entry);
    SubsetIffContains(entry, x);
  }

  /**
   The inner loop over `all_roas` for one worklist entry: the subset branch
   keeps exactly the blocks strictly covering the entry and the superset
   branch exactly the blocks strictly inside it, in order and with their
   multiplicity.
   */
  function ScanRoas(entry: Block, roas: seq<Block>): (r: Scan)
    requires Valid(entry) && AllValid(roas)
    ensures IsSubsequence(r.covering, roas) && IsSubsequence(r.pushed, roas)
    ensures forall x | x in r.covering :: x in roas && StrictlyInside(entry, x)
    ensures forall x | x in r.pushed :: x in roas && StrictlyInside(x, entry)
    decreases |roas|
  {
    if roas == [] then Scan([], [])
    else
      var rest := ScanRoas(entry, roas[1..]);
      var x := roas[0];
      assert roas == [x] + roas[1..];
      CoversIffStrictlyInside(entry, x);
      if Same(entry, x) then
        assert !StrictlyInside(entry, x) && !StrictlyInside(x, entry);
        rest
      else if Addresses(entry) <= Addresses(x) then
        assert StrictlyInside(entry, x) && !StrictlyInside(x, entry);
        Scan([x] + rest.covering, rest.pushed)
      else if Addresses(x) <= Addresses(entry) then
        assert StrictlyInside(x, entry) && !StrictlyInside(entry, x);
        Scan(rest.covering, [x] + rest.pushed)
      else
        assert !StrictlyInside(entry, x) && !StrictlyInside(x, entry);
        rest
  }

  /** The scan keeps every strict cover and every strictly-inside block of `roas` as often as `roas` holds it. */
  lemma {:induction false} ScanComplete(entry: Block, roas: seq<Block>)
    requires Valid(entry) && AllValid(roas)
    ensures forall x | x in roas && StrictlyInside(entry, x) ::
              multiset(ScanRoas(entry, roas).covering)[x] == multiset(roas)[x]
    ensures forall x | x in roas && StrictlyInside(x, entry) ::
              multiset(ScanRoas(entry, roas).pushed)[x] == multiset(roas)[x]
    decreases |roas|
  {
    if roas != [] {
      var x := roas[0];
      ScanComplete(entry, roas[1..]);
      assert roas == [x] + roas[1..];
      assert multiset(roas) == multiset{x} + multiset(roas[1..]);
      CoversIffStrictlyInside(entry, x);
      forall y | y in roas && StrictlyInside(entry, y)
        ensures multiset(ScanRoas(entry, roas).covering)[y] == multiset(roas)[y]
      {
        if y != x {
          assert y in roas[1..];
        }
      }
      forall y | y in roas && StrictlyInside(y, entry)
        ensures multiset(ScanRoas(entry, roas).pushed)[y] == multiset(roas)[y]
      {
        if y != x {
          assert y in roas[1..];
        }
      }
    }
  }

  /** `overlap_list` for one entry: the entry, then every block strictly covering it. */
  function Group(entry: Block, roas: seq<Block>): (r: seq<Block>)
    requires Valid(entry) && AllValid(roas)
    ensures |r| >= 1 && r[0] == entry
    ensures forall x | x in r[1..] :: x in roas && StrictlyInside(entry, x)
  {
    assert ([entry] + ScanRoas(entry, roas).covering)[1..] == ScanRoas(entry, roas).covering;
    [entry] + ScanRoas(entry, roas).covering
  }

  /** The group of an entry: the entry first, then exactly the blocks strictly covering it, in `all_roas` order. */
  lemma GroupMeaning(entry: Block, roas: seq<Block>)
    requires Valid(entry) && AllValid(roas)
    ensures Group(entry, roas)[0] == entry
    ensures IsSubsequence(Group(entry, roas)[1..], roas)
    ensures forall x | x in Group(entry, roas)[1..] ::
              x in roas && StrictlyInside(entry, x) && x.len < entry.len
    ensures forall x | x in roas && StrictlyInside(entry, x) ::
              multiset(Group(entry, roas)[1..])[x] == multiset(roas)[x]
    ensures |Group(entry, roas)| > 1 <==> exists x :: x in roas && StrictlyInside(entry, x)
  {
    var g := Group(entry, roas);
    var covering := ScanRoas(entry, roas).covering;
    ScanComplete(entry, roas);
    assert g[1..] == covering;
    forall x | x in covering
      ensures x.len < entry.len
    {
      StrictlyInsideLengthens(entry, x);
    }
    if exists x :: x in roas && StrictlyInside(entry, x) {
      var x :| x in roas && StrictlyInside(entry, x);
      assert x in covering;
    }
  }

  /** The blocks a scan pushes are exactly those strictly inside the entry, each with a longer prefix. */
  lemma PushedMeaning(entry: Block, roas: seq<Block>)
    requires Valid(entry) && AllValid(roas)
    ensures forall x | x in ScanRoas(entry, roas).pushed ::
              x in roas && StrictlyInside(x, entry) && x.len > entry.len
    ensures forall x | x in roas && StrictlyInside(x, entry) :: x in ScanRoas(entry, roas).pushed
    ensures |ScanRoas(entry, roas).pushed| <= |roas|
  {
    var pushed := ScanRoas(entry, roas).pushed;
    ScanComplete(entry, roas);
    forall x | x in pushed
      ensures x.len > entry.len
    {
      StrictlyInsideLengthens(x, entry);
    }
    forall x | x in roas && StrictlyInside(x, entry)
      ensures x in pushed
    {
      assert multiset(pushed)[x] == multiset(roas)[x];
    }
    SubsequenceLength(pushed, roas);
  }

  /** Reference for `overlapping_roas`: the group of each entry of `ws` that has one, in worklist order. */
  function GroupsOf(roas: seq<Block>, ws: seq<Block>): (r: seq<seq<Block>>)
    requires AllValid(roas) && AllValid(ws)
    ensures |r| <= |ws|
    ensures forall g | g in r :: |g| > 1
    decreases |ws|
  {
    if ws == [] then []
    else
      var init := ws[..|ws| - 1];
      assert forall x | x in init :: x in ws;
      var g := Group(ws[|ws| - 1], roas);
      GroupsOf(roas, init) + (if |g| > 1 then [g] else [])
  }

  /** Every recorded group has a covering block, starts with a worklist entry and holds only its strict covers. */
  lemma {:induction false} GroupsWellFormed(roas: seq<Block>, ws: seq<Block>)
    requires AllValid(roas) && AllValid(ws)
    ensures forall g | g in GroupsOf(roas, ws) ::
              |g| > 1 && g[0] in ws && g == Group(g[0], roas)
    decreases |ws|
  {
    if ws != [] {
      var init := ws[..|ws| - 1];
      assert forall x | x in init :: x in ws;
      GroupsWellFormed(roas, init);
      GroupMeaning(ws[|ws| - 1], roas);
    }
  }

  lemma {:induction false} LongGroupRecorded(roas: seq<Block>, ws: seq<Block>, w: Block)
    requires AllValid(roas) && AllValid(ws) && w in ws && |Group(w, roas)| > 1
    ensures Group(w, roas) in GroupsOf(roas, ws)
    decreases |ws|
  {
    var last := ws[|ws| - 1];
    var init := ws[..|ws| - 1];
    assert forall x | x in init :: x in ws;
    var tail := if |Group(last, roas)| > 1 then [Group(last, roas)] else [];
    assert GroupsOf(roas, ws) == GroupsOf(roas, init) + tail;
    if w != last {
      assert ws == init + [last];
      assert w in init;
      LongGroupRecorded(roas, init, w);
    }
  }

  /** A worklist entry gets a group exactly when some ROA block strictly covers it. */
  lemma GroupRecordedIffCovered(roas: seq<Block>, ws: seq<Block>, w: Block)
    requires AllValid(roas) && AllValid(ws) && w in ws
    ensures Group(w, roas) in GroupsOf(roas, ws) <==> exists x :: x in roas && StrictlyInside(w, x)
  {
    GroupMeaning(w, roas);
    if Group(w, roas) in GroupsOf(roas, ws) {
      GroupsWellFormed(roas, ws);
    }
    if |Group(w, roas)| > 1 {
      LongGroupRecorded(roas, ws, w);
    }
  }

  /**
   `base^e` for the termination measure, whose base is |all_roas| + 1. It is
   kept apart from `Cidr.Pow2`, the block sizes, so that the arithmetic facts
   about the measure do not enter the proofs about blocks.
   */
  function Power(base: nat, e: nat): (r: nat)
    ensures base >= 1 ==> r >= 1
  {
    if e == 0 then 1 else base * Power(base, e - 1)
  }

  lemma {:induction false} PowerMonotone(base: nat, e1: nat, e2: nat)
    requires base >= 1 && e1 <= e2
    ensures Power(base, e1) <= Power(base, e2)
    decreases e2
  {
    if e1 < e2 {
      PowerMonotone(base, e1, e2 - 1);
      MulMonotone(1, base, Power(base, e2 - 1));
    }
  }

  /** Termination weight of a pending entry: with `n` ROA blocks, one entry outweighs the at most `n` longer blocks it pushes. */
  function Weight(b: Block, n: nat): nat {
    if b.len <= AddressBits then Power(n + 1, AddressBits + 1 - b.len) else 0
  }

  function Potential(ws: seq<Block>, n: nat): nat
    decreases |ws|
  {
    if ws == [] then 0 else Weight(ws[0], n) + Potential(ws[1..], n)
  }

  lemma {:induction false} PotentialAppend(a: seq<Block>, b: seq<Block>, n: nat)
    ensures Potential(a + b, n) == Potential(a, n) + Potential(b, n)
    decreases |a|
  {
    if a == [] {
      assert a + b == b;
    } else {
      assert (a + b)[1..] == a[1..] + b;
      PotentialAppend(a[1..], b, n);
    }
  }

  lemma MulSucc(k: nat, p: nat)
    ensures (k + 1) * p == k * p + p
  {
  }

  lemma {:induction false} PotentialBound(ps: seq<Block>, n: nat, len: nat)
    requires len < AddressBits
    requires forall x | x in ps :: len < x.len <= AddressBits
    ensures Potential(ps, n) <= |ps| * Power(n + 1, AddressBits - len)
    decreases |ps|
  {
    if ps != [] {
      assert forall x | x in ps[1..] :: x in ps;
      PotentialBound(ps[1..], n, len);
      var p := Power(n + 1, AddressBits - len);
      PowerMonotone(n + 1, AddressBits + 1 - ps[0].len, AddressBits - len);
      assert Potential(ps, n) <= p + |ps[1..]| * p;
      MulSucc(|ps[1..]|, p);
    }
  }

  /** Replacing an entry by at most `n` blocks with longer prefixes lowers the potential. */
  lemma PotentialDrops(entry: Block, ps: seq<Block>, rest: seq<Block>, n: nat)
    requires Valid(entry) && |ps| <= n
    requires forall x | x in ps :: entry.len < x.len <= AddressBits
    ensures Potential(rest + ps, n) < Weight(entry, n) + Potential(rest, n)
  {
    PotentialAppend(rest, ps, n);
    if ps != [] {
      assert ps[0] in ps;
      PotentialBound(ps, n, entry.len);
      var p := Power(n + 1, AddressBits - entry.len);
      assert Weight(entry, n) == (n + 1) * p;
      MulMonotone(|ps|, n, p);
    }
  }

  /** Every worklist entry from index `base` on is a ROA block strictly inside one of the first `i` entries before it. */
  predicate Descends(roas: seq<Block>, ws: seq<Block>, base: nat, i: nat)
    requires AllValid(ws)
  {
    forall k | base <= k < |ws| ::
      ws[k] in roas &&
      exists j :: 0 <= j < i && j < k && StrictlyInside(ws[k], ws[j]) && ws[k].len > ws[j].len
  }

  /** Appending the blocks pushed by entry `i` keeps the worklist well formed and descending. */
  lemma PushKeepsDescent(roas: seq<Block>, ws: seq<Block>, base: nat, i: nat, pushed: seq<Block>)
    requires AllValid(roas) && AllValid(ws) && base <= |ws| && i < |ws|
    requires Descends(roas, ws, base, i)
    requires forall x | x in pushed :: x in roas && StrictlyInside(x, ws[i]) && x.len > ws[i].len
    ensures AllValid(ws + pushed)
    ensures Descends(roas, ws + pushed, base, i + 1)
  {
    var ws' := ws + pushed;
    forall k | base <= k < |ws'|
      ensures ws'[k] in roas &&
        exists j :: 0 <= j < i + 1 && j < k && StrictlyInside(ws'[k], ws'[j]) && ws'[k].len > ws'[j].len
    {
      if k < |ws| {
        assert ws'[k] == ws[k];
        var j :| 0 <= j < i && j < k && StrictlyInside(ws[k], ws[j]) && ws[k].len > ws[j].len;
        assert ws'[j] == ws[j];
      } else {
        assert ws'[k] == pushed[k - |ws|];
        assert ws'[k] in pushed;
        assert ws'[i] == ws[i];
      }
    }
  }

  /** Processing entry `i` extends the groups of the processed prefix by that entry's group, if it has one. */
  lemma GroupsStep(roas: seq<Block>, ws: seq<Block>, i: nat, pushed: seq<Block>)
    requires AllValid(roas) && AllValid(ws) && AllValid(ws + pushed) && i < |ws|
    ensures GroupsOf(roas, (ws + pushed)[..i + 1]) ==
      GroupsOf(roas, ws[..i]) + (if |Group(ws[i], roas)| > 1 then [Group(ws[i], roas)] else [])
  {
    var p := (ws + pushed)[..i + 1];
    assert p[..|p| - 1] == ws[..i];
    assert p[|p| - 1] == ws[i];
  }

  /** Processing entry `i` lowers the potential of the entries still pending. */
  lemma PotentialStep(roas: seq<Block>, ws: seq<Block>, i: nat, pushed: seq<Block>)
    requires AllValid(roas) && AllValid(ws) && i < |ws| && |pushed| <= |roas|
    requires forall x | x in pushed :: ws[i].len < x.len <= AddressBits
    ensures Potential((ws + pushed)[i + 1..], |roas|) < Potential(ws[i..], |roas|)
  {
    assert ws[i] in ws;
    PotentialDrops(ws[i], pushed, ws[i + 1..], |roas|);
    assert ws[i..][1..] == ws[i + 1..];
    assert (ws + pushed)[i + 1..] == ws[i + 1..] + pushed;
  }

  /** Reference for the appended part of `roas_to_check`: the blocks entries `0..i` of `ws` push, in order. */
  function PushedUpTo(roas: seq<Block>, ws: seq<Block>, i: nat): (r: seq<Block>)
    requires AllValid(roas) && AllValid(ws) && i <= |ws|
    ensures forall x | x in r :: x in roas
    decreases i
  {
    if i == 0 then []
    else
      var before := PushedUpTo(roas, ws, i - 1);
      var pushed := ScanRoas(ws[i - 1], roas).pushed;
      assert forall x | x in before + pushed :: x in before || x in pushed;
      before + pushed
  }

  /** What the first `i` entries push does not depend on what comes after them. */
  lemma {:induction false} PushedUpToPrefix(roas: seq<Block>, ws: seq<Block>, ext: seq<Block>, i: nat)
    requires AllValid(roas) && AllValid(ws) && AllValid(ws + ext) && i <= |ws|
    ensures PushedUpTo(roas, ws + ext, i) == PushedUpTo(roas, ws, i)
    decreases i
  {
    if i > 0 {
      PushedUpToPrefix(roas, ws, ext, i - 1);
      assert (ws + ext)[i - 1] == ws[i - 1];
    }
  }

  /** Within an extended worklist, entry `i` adds its own pushed blocks to the pushes of the entries before it. */
  lemma PushedUpToStep(roas: seq<Block>, ws: seq<Block>, ext: seq<Block>, i: nat)
    requires AllValid(roas) && AllValid(ws) && AllValid(ws + ext) && i < |ws|
    ensures PushedUpTo(roas, ws + ext, i + 1) == PushedUpTo(roas, ws, i) + ScanRoas(ws[i], roas).pushed
  {
    PushedUpToPrefix(roas, ws, ext, i);
    assert (ws + ext)[i] == ws[i];
  }

  /** Regrouping the worklist after an append: `toCheck + before`, extended by `pushed`, is `toCheck + (before + pushed)`. */
  lemma AppendRegroup<T>(toCheck: seq<T>, ws: seq<T>, before: seq<T>, pushed: seq<T>, next: seq<T>)
    requires ws == toCheck + before && next == before + pushed
    ensures ws + pushed == toCheck + next
  {
    assert (toCheck + before) + pushed == toCheck + (before + pushed);
  }

  /** Processing entry `i` appends exactly its pushed blocks, keeping the worklist `roas_to_check` plus every push so far. */
  lemma PushedStep(roas: seq<Block>, toCheck: seq<Block>, ws: seq<Block>, i: nat, before: seq<Block>, pushed: seq<Block>)
    requires AllValid(roas) && AllValid(ws) && i < |ws| && AllValid(ws + pushed)
    requires before == PushedUpTo(roas, ws, i) && pushed == ScanRoas(ws[i], roas).pushed
    requires ws == toCheck + before
    ensures ws + pushed == toCheck + PushedUpTo(roas, ws + pushed, i + 1)
  {
    PushedUpToStep(roas, ws, pushed, i);
    AppendRegroup(toCheck, ws, before, pushed, PushedUpTo(roas, ws + pushed, i + 1));
  }

  /**
   The state of the covering loop before entry `i`: the worklist is `roas_to_check`
   followed by what the first `i` entries pushed, every appended block descends from
   an earlier entry, and the groups of the first `i` entries are recorded.
   */
  predicate CoverInv(roas: seq<Block>, toCheck: seq<Block>, ws: seq<Block>, overlapping: seq<seq<Block>>, i: nat)
    requires AllValid(roas)
  {
    i <= |ws| && AllValid(ws) &&
    ws == toCheck + PushedUpTo(roas, ws, i) &&
    overlapping == GroupsOf(roas, ws[..i]) &&
    Descends(roas, ws, |toCheck|, i)
  }

  /** Examining entry `i` keeps the loop state and lowers the potential of the pending entries. */
  lemma CoverStep(roas: seq<Block>, toCheck: seq<Block>, ws: seq<Block>, overlapping: seq<seq<Block>>, i: nat)
    requires AllValid(roas) && CoverInv(roas, toCheck, ws, overlapping, i) && i < |ws|
    ensures var pushed := ScanRoas(ws[i], roas).pushed;
            var g := Group(ws[i], roas);
            CoverInv(roas, toCheck, ws + pushed, overlapping + (if |g| > 1 then [g] else []), i + 1) &&
            Potential((ws + pushed)[i + 1..], |roas|) < Potential(ws[i..], |roas|)
  {
    var pushed := ScanRoas(ws[i], roas).pushed;
    PushedMeaning(ws[i], roas);
    PotentialStep(roas, ws, i, pushed);
    PushKeepsDescent(roas, ws, |toCheck|, i, pushed);
    GroupsStep(roas, ws, i, pushed);
    PushedStep(roas, toCheck, ws, i, PushedUpTo(roas, ws, i), pushed);
  }

  /**
   The covering loop over `roas_to_check`, walked by index while it grows.
   Returns the final worklist and the recorded groups (`overlapping_roas`).
   */
  method CollectCovering(roas: seq<Block>, toCheck: seq<Block>)
    returns (worklist: seq<Block>, overlapping: seq<seq<Block>>)
    requires AllValid(roas) && AllValid(toCheck)
    ensures |toCheck| <= |worklist| && worklist[..|toCheck|] == toCheck
    ensures AllValid(worklist)
    ensures worklist == toCheck + PushedUpTo(roas, worklist, |worklist|)
    ensures overlapping == GroupsOf(roas, worklist)
    ensures forall k | |toCheck| <= k < |worklist| ::
              worklist[k] in roas &&
              exists j :: 0 <= j < k && StrictlyInside(worklist[k], worklist[j]) && worklist[k].len > worklist[j].len
  {
    worklist := toCheck;
    overlapping := [];
    var i := 0;
    assert toCheck[..0] == [];
    assert toCheck + [] == toCheck;
    while i < |worklist|
      invariant CoverInv(roas, toCheck, worklist, overlapping, i)
      decreases Potential(worklist[i..], |roas|)
    {
      var entry := worklist[i];
      var scan := ScanRoas(entry, roas);
      var group := [entry] + scan.covering;
      CoverStep(roas, toCheck, worklist, overlapping, i);
      worklist := worklist + scan.pushed;
      if |group| > 1 {
        overlapping := overlapping + [group];
      }
      i := i + 1;
    }
    assert worklist[..i] == worklist;
    assert worklist[..|toCheck|] == toCheck;
  }
}
