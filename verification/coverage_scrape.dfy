/**
 The extraction step of the coverage script: the downloaded statistics page
 is cut between a start marker and the first end marker after it, with the
 results of `find` used unchecked, so a missing marker does not raise but
 moves the cut.
 */
module CoverageScrape {
  import opened PyStr

  const Ipv6OriginsStart: string := "var data_ipv6_origins = google.visualization.arrayToDataTable(["
  const Ipv4OriginsStart: string := "var data_ipv4_origins = google.visualization.arrayToDataTable(["
  const DataEnd: string := "var pc_opts = {"

  /** `text.find(marker) + len(marker)`: just past the first occurrence, or `len(marker) - 1` without one. */
  function StartPosition(text: string, marker: string): (sp: int)
    ensures sp >= 0
    ensures forall p | FirstAt(text, marker, p) :: sp == p + |marker|
    ensures !Occurs(text, marker) ==> sp == |marker| - 1
  {
    EmptyOccurs(text);
    var p := Find(text, marker);
    assert p >= 0 ==> forall p' | FirstAt(text, marker, p') :: p' == p;
    p + |marker|
  }

  /** From `sp`, `text[sp:sp + text[sp:].find(endMarker)]`. */
  function Cut(text: string, sp: int, endMarker: string): (r: string)
    requires sp >= 0
    ensures IsSubstring(r, text)
  {
    var endData := Find(Slice(text, sp, |text|), endMarker);
    Slice(text, sp, sp + endData)
  }

  /** With an end marker at or after `sp`, the cut runs from `sp` up to its first such occurrence. */
  lemma CutFound(text: string, sp: int, endMarker: string, q: int)
    requires sp >= 0 && FirstFrom(text, endMarker, sp, q)
    ensures Cut(text, sp, endMarker) == text[sp..q]
  {
    var rest := Slice(text, sp, |text|);
    assert rest == text[sp..];
    var f := Find(rest, endMarker);
    OccursInSuffix(text, endMarker, sp, q - sp);
    assert OccursAt(rest, endMarker, q - sp);
    assert f >= 0;
    OccursInSuffix(text, endMarker, sp, f);
    assert f == q - sp;
  }

  /** Without an end marker at or after `sp`, `find` gives -1 and the slice `[sp:sp-1]` is cut. */
  lemma CutMissing(text: string, sp: int, endMarker: string)
    requires sp >= 0
    requires forall j :: sp <= j ==> !OccursAt(text, endMarker, j)
    ensures sp >= 1 ==> Cut(text, sp, endMarker) == []
    ensures sp == 0 ==> Cut(text, sp, endMarker) == if |text| == 0 then [] else text[..|text| - 1]
  {
    var rest := Slice(text, sp, |text|);
    if sp <= |text| {
      assert rest == text[sp..];
      forall j: nat
        ensures !OccursAt(rest, endMarker, j)
      {
        OccursInSuffix(text, endMarker, sp, j);
      }
      assert Find(rest, endMarker) == -1;
    } else {
      assert rest == [];
    }
  }

  /** A slice of `text` from `sp` that stops before the first end marker from `sp` holds no end marker. */
  lemma PieceAvoidsEnd(text: string, sp: nat, stop: nat, endMarker: string)
    requires sp <= stop <= |text| && |endMarker| > 0
    requires forall j :: sp <= j && j + |endMarker| <= stop ==> !OccursAt(text, endMarker, j)
    ensures !Occurs(text[sp..stop], endMarker)
  {
    var r := text[sp..stop];
    forall k | 0 <= k && k + |endMarker| <= |r|
      ensures !OccursAt(r, endMarker, k)
    {
      var piece, whole := r[k..k + |endMarker|], text[sp + k..sp + k + |endMarker|];
      assert forall t | 0 <= t < |piece| :: piece[t] == whole[t];
      assert piece == whole;
      assert !OccursAt(text, endMarker, sp + k);
    }
  }

  /** The cut never contains a whole end marker. */
  lemma CutAvoidsEnd(text: string, sp: int, endMarker: string)
    requires sp >= 0
    ensures |endMarker| > 0 ==> !Occurs(Cut(text, sp, endMarker), endMarker)
  {
    if |endMarker| == 0 {
    } else if exists q :: FirstFrom(text, endMarker, sp, q) {
      var q :| FirstFrom(text, endMarker, sp, q);
      CutFound(text, sp, endMarker, q);
      PieceAvoidsEnd(text, sp, q, endMarker);
    } else {
      NoOccurrenceFrom(text, endMarker, sp);
      CutMissing(text, sp, endMarker);
      if sp == 0 && |text| > 0 {
        PieceAvoidsEnd(text, 0, |text| - 1, endMarker);
        assert text[0..|text| - 1] == text[..|text| - 1];
      }
    }
  }

  /** No first occurrence at or after `from` means no occurrence there at all. */
  lemma NoOccurrenceFrom(text: string, pat: string, from: int)
    requires forall q :: !FirstFrom(text, pat, from, q)
    ensures forall j :: from <= j ==> !OccursAt(text, pat, j)
  {
    if exists j :: from <= j && OccursAt(text, pat, j) {
      var j :| from <= j && OccursAt(text, pat, j);
      var q := FindFirstFrom(text, pat, from, j);
    }
  }

  /** The least occurrence at or after `from`, given one at `j`. */
  lemma FindFirstFrom(text: string, pat: string, from: int, j: int) returns (q: int)
    requires from <= j && OccursAt(text, pat, j)
    ensures FirstFrom(text, pat, from, q)
    decreases j - from
  {
    if exists k :: from <= k < j && OccursAt(text, pat, k) {
      var k :| from <= k < j && OccursAt(text, pat, k);
      q := FindFirstFrom(text, pat, from, k);
    } else {
      q := j;
    }
  }

  /** The data between `startMarker` and the next `endMarker`, as the scraper computes `ipv6_data` and `ipv4_data`. */
  function ExtractBetween(text: string, startMarker: string, endMarker: string): (r: string)
    ensures IsSubstring(r, text)
    ensures |endMarker| > 0 ==> !Occurs(r, endMarker)
  {
    var sp := StartPosition(text, startMarker);
    CutAvoidsEnd(text, sp, endMarker);
    Cut(text, sp, endMarker)
  }

  /** Both markers present, in order: exactly the text strictly between them. */
  lemma ExtractBetweenMarkers(text: string, startMarker: string, endMarker: string, p: int, q: int)
    requires FirstAt(text, startMarker, p)
    requires FirstFrom(text, endMarker, p + |startMarker|, q)
    ensures ExtractBetween(text, startMarker, endMarker) == text[p + |startMarker|..q]
  {
    CutFound(text, p + |startMarker|, endMarker, q);
  }

  /** With the start marker present, the result is a prefix of what follows its first occurrence. */
  lemma ExtractStartsAfterMarker(text: string, startMarker: string, endMarker: string, p: int)
    requires FirstAt(text, startMarker, p)
    ensures ExtractBetween(text, startMarker, endMarker) <= text[p + |startMarker|..]
  {
    var sp := p + |startMarker|;
    assert StartPosition(text, startMarker) == sp;
    assert ExtractBetween(text, startMarker, endMarker) == Cut(text, sp, endMarker);
    var after := text[sp..];
    if exists q :: FirstFrom(text, endMarker, sp, q) {
      var q :| FirstFrom(text, endMarker, sp, q);
      CutFound(text, sp, endMarker, q);
      assert text[sp..q] == after[..q - sp];
    } else {
      NoOccurrenceFrom(text, endMarker, sp);
      CutMissing(text, sp, endMarker);
    }
  }

  /** No end marker after the start position: empty whenever that position is past index 0. */
  lemma ExtractEndMissing(text: string, startMarker: string, endMarker: string)
    ensures (forall j :: StartPosition(text, startMarker) <= j ==> !OccursAt(text, endMarker, j)) ==>
              (StartPosition(text, startMarker) >= 1 ==> ExtractBetween(text, startMarker, endMarker) == []) &&
              (StartPosition(text, startMarker) == 0 ==>
                 ExtractBetween(text, startMarker, endMarker) == if |text| == 0 then [] else text[..|text| - 1])
  {
    if forall j :: StartPosition(text, startMarker) <= j ==> !OccursAt(text, endMarker, j) {
      CutMissing(text, StartPosition(text, startMarker), endMarker);
    }
  }

  /** The start position is 0 only for an empty start marker or an absent one-character marker. */
  lemma StartAtZero(text: string, startMarker: string)
    ensures StartPosition(text, startMarker) == 0 <==>
              startMarker == [] || (|startMarker| == 1 && !Occurs(text, startMarker))
  {
    EmptyOccurs(text);
    if Occurs(text, startMarker) {
      var p := Find(text, startMarker);
      assert FirstAt(text, startMarker, p);
    }
  }

  /** Start marker absent: no error, the cut starts at offset `len(startMarker) - 1`. */
  lemma ExtractStartMissing(text: string, startMarker: string, endMarker: string, q: int)
    requires |startMarker| > 0 && !Occurs(text, startMarker)
    requires FirstFrom(text, endMarker, |startMarker| - 1, q)
    ensures ExtractBetween(text, startMarker, endMarker) == text[|startMarker| - 1..q]
  {
    CutFound(text, |startMarker| - 1, endMarker, q);
  }

  /** `ipv6_data`. */
  function Ipv6Data(page: string): (r: string)
    ensures IsSubstring(r, page) && !Occurs(r, DataEnd)
    ensures (forall j :: StartPosition(page, Ipv6OriginsStart) <= j ==> !OccursAt(page, DataEnd, j)) ==> r == []
  {
    StartAtZero(page, Ipv6OriginsStart);
    ExtractEndMissing(page, Ipv6OriginsStart, DataEnd);
    ExtractBetween(page, Ipv6OriginsStart, DataEnd)
  }

  /** `ipv4_data`: the same extraction with the IPv4 start marker and the same end marker. */
  function Ipv4Data(page: string): (r: string)
    ensures IsSubstring(r, page) && !Occurs(r, DataEnd)
    ensures (forall j :: StartPosition(page, Ipv4OriginsStart) <= j ==> !OccursAt(page, DataEnd, j)) ==> r == []
  {
    StartAtZero(page, Ipv4OriginsStart);
    ExtractEndMissing(page, Ipv4OriginsStart, DataEnd);
    ExtractBetween(page, Ipv4OriginsStart, DataEnd)
  }
}
