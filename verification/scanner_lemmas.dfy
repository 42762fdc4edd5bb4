/**
 * Properties of `parse_items` (modelled by `Parsers.ParseItems`): which lines
 * it takes as block markers, what the blocks contribute, when it panics, and
 * that the line between a block's name and price lines is never read.
 */
module ScannerLemmas {
  import opened Wrappers
  import opened Text
  import opened Numbers
  import opened Matchers
  import opened Parsers
  import opened ExtractorLemmas

  // ---- Markers ----

  /** Every index the scan takes as a marker is a marker line at or after the start. */
  lemma {:induction false} MarkersAreMarkers(flags: seq<bool>, i: nat)
    ensures forall k :: 0 <= k < |Markers(flags, i)| ==>
              i <= Markers(flags, i)[k] < |flags| && flags[Markers(flags, i)[k]]
    decreases |flags| - i
  {
    if i < |flags| {
      if flags[i] {
        MarkersAreMarkers(flags, i + 4);
        assert Markers(flags, i) == [i] + Markers(flags, i + 4);
      } else {
        MarkersAreMarkers(flags, i + 1);
      }
    }
  }

  /**
   * Any two markers are at least four lines apart, in increasing order: a
   * block's name, blank and price lines are never scanned for markers.
   */
  lemma {:induction false} MarkersSpaced(flags: seq<bool>, i: nat)
    ensures forall k1, k2 :: 0 <= k1 < k2 < |Markers(flags, i)| ==>
              Markers(flags, i)[k1] + 4 <= Markers(flags, i)[k2]
    decreases |flags| - i
  {
    if i < |flags| {
      if flags[i] {
        MarkersSpaced(flags, i + 4);
        MarkersAreMarkers(flags, i + 4);
        var rest := Markers(flags, i + 4);
        assert Markers(flags, i) == [i] + rest;
      } else {
        MarkersSpaced(flags, i + 1);
      }
    }
  }

  /**
   * No marker line is overlooked: a marker line at or after the start is
   * either taken as a marker or lies among the three lines that follow one.
   */
  lemma {:induction false} MarkersCover(flags: seq<bool>, i: nat, j: nat)
    requires i <= j < |flags| && flags[j]
    ensures j in Markers(flags, i) || exists k :: 0 <= k < |Markers(flags, i)| && Markers(flags, i)[k] < j <= Markers(flags, i)[k] + 3
    decreases |flags| - i
  {
    var ms := Markers(flags, i);
    if flags[i] {
      var rest := Markers(flags, i + 4);
      assert ms == [i] + rest;
      if j <= i + 3 {
        assert ms[0] == i;
      } else {
        MarkersCover(flags, i + 4, j);
        if j !in rest {
          var k :| 0 <= k < |rest| && rest[k] < j <= rest[k] + 3;
          assert ms[k + 1] == rest[k];
        }
      }
    } else {
      MarkersCover(flags, i + 1, j);
    }
  }

  /** The scan from `i` only reads flags at or after `i`. */
  lemma {:induction false} MarkersFrame(flags: seq<bool>, other: seq<bool>, i: nat)
    requires |flags| == |other|
    requires forall j :: i <= j < |flags| ==> flags[j] == other[j]
    ensures Markers(flags, i) == Markers(other, i)
    decreases |flags| - i
  {
    if i < |flags| {
      if flags[i] {
        MarkersFrame(flags, other, i + 4);
      } else {
        MarkersFrame(flags, other, i + 1);
      }
    }
  }

  /** Changing whether the line two after a marker is a marker leaves the markers as they were. */
  lemma {:induction false} MarkersIgnoreBlank(flags: seq<bool>, i: nat, m: nat, b: bool)
    requires m in Markers(flags, i) && m + 2 < |flags|
    ensures Markers(flags[m + 2 := b], i) == Markers(flags, i)
    decreases |flags| - i
  {
    var other := flags[m + 2 := b];
    MarkersAreMarkers(flags, i);
    MarkersSpaced(flags, i);
    if flags[i] {
      assert Markers(flags, i) == [i] + Markers(flags, i + 4);
      if m == i {
        MarkersFrame(flags, other, i + 4);
      } else {
        MarkersIgnoreBlank(flags, i + 4, m, b);
      }
    } else {
      MarkersIgnoreBlank(flags, i + 1, m, b);
    }
  }

  // ---- Harvest ----

  /** The block at `m` panics: it is complete and its price line does not match. */
  predicate Panics(lines: seq<string>, m: nat, ex: (string, string) -> Extraction) {
    IsComplete(lines, m) && BlockOutcome(lines, m, ex).Panicked?
  }

  /** The block at `m` is complete and parses to `s`. */
  predicate Yields(lines: seq<string>, m: nat, ex: (string, string) -> Extraction, s: ItemSection) {
    IsComplete(lines, m) && BlockOutcome(lines, m, ex) == Parsed(s)
  }

  /**
   * The scan panics exactly when some block panics, and then it stops at the
   * first block that does.
   */
  lemma {:induction false} HarvestCrash(lines: seq<string>, ms: seq<nat>, ex: (string, string) -> Extraction)
    ensures Harvest(lines, ms, ex).Crashed? <==> exists k :: 0 <= k < |ms| && Panics(lines, ms[k], ex)
    ensures Harvest(lines, ms, ex).Crashed? ==>
              exists k :: 0 <= k < |ms| && ms[k] == Harvest(lines, ms, ex).marker && Panics(lines, ms[k], ex)
                          && forall k' :: 0 <= k' < k ==> !Panics(lines, ms[k'], ex)
  {
    if ms != [] {
      var m := ms[0];
      var tail := ms[1..];
      HarvestCrash(lines, tail, ex);
      assert forall k :: 0 < k < |ms| ==> ms[k] == tail[k - 1];
      if !Panics(lines, m, ex) {
        assert Harvest(lines, ms, ex).Crashed? == Harvest(lines, tail, ex).Crashed?;
        if Harvest(lines, ms, ex).Crashed? {
          assert Harvest(lines, ms, ex).marker == Harvest(lines, tail, ex).marker;
          var k :| 0 <= k < |tail| && tail[k] == Harvest(lines, ms, ex).marker && Panics(lines, tail[k], ex)
                   && forall k' :: 0 <= k' < k ==> !Panics(lines, tail[k'], ex);
          assert ms[k + 1] == tail[k];
          forall k' | 0 <= k' < k + 1 ensures !Panics(lines, ms[k'], ex) {
            if k' > 0 {
              assert ms[k'] == tail[k' - 1];
            }
          }
        }
      }
    }
  }

  /**
   * When the scan ends normally, each section it returns comes from a block,
   * each block that parses contributes its section, and there are no more
   * sections than markers.
   */
  lemma {:induction false} HarvestSections(lines: seq<string>, ms: seq<nat>, ex: (string, string) -> Extraction)
    requires Harvest(lines, ms, ex).Done?
    ensures |Harvest(lines, ms, ex).sections| <= |ms|
    ensures forall s :: s in Harvest(lines, ms, ex).sections ==> exists k :: 0 <= k < |ms| && Yields(lines, ms[k], ex, s)
    ensures forall k, s :: 0 <= k < |ms| && Yields(lines, ms[k], ex, s) ==> s in Harvest(lines, ms, ex).sections
  {
    if ms != [] {
      var m := ms[0];
      var tail := ms[1..];
      HarvestSections(lines, tail, ex);
      assert forall k :: 0 < k < |ms| ==> ms[k] == tail[k - 1];
      var ss := Harvest(lines, ms, ex).sections;
      var ts := Harvest(lines, tail, ex).sections;
      if IsComplete(lines, m) && BlockOutcome(lines, m, ex).Parsed? {
        assert ss == [BlockOutcome(lines, m, ex).section] + ts;
      } else {
        assert ss == ts;
      }
      forall s | s in ss ensures exists k :: 0 <= k < |ms| && Yields(lines, ms[k], ex, s) {
        if s !in ts {
          assert Yields(lines, ms[0], ex, s);
        } else {
          var k :| 0 <= k < |tail| && Yields(lines, tail[k], ex, s);
          assert Yields(lines, ms[k + 1], ex, s);
        }
      }
    }
  }

  /**
   * Blocks are harvested in page order: the sections of a run of markers
   * that ends normally come before those of the markers after it.
   */
  lemma {:induction false} HarvestAppend(lines: seq<string>, a: seq<nat>, b: seq<nat>, ex: (string, string) -> Extraction)
    requires Harvest(lines, a, ex).Done?
    ensures Harvest(lines, a + b, ex) == Prepend(Harvest(lines, a, ex).sections, Harvest(lines, b, ex))
  {
    if a == [] {
      assert a + b == b;
      if Harvest(lines, b, ex).Done? {
        assert [] + Harvest(lines, b, ex).sections == Harvest(lines, b, ex).sections;
      }
    } else {
      var m := a[0];
      assert (a + b)[0] == m;
      assert (a + b)[1..] == a[1..] + b;
      HarvestAppend(lines, a[1..], b, ex);
      if IsComplete(lines, m) && BlockOutcome(lines, m, ex).Parsed? {
        PrependTwice([BlockOutcome(lines, m, ex).section], Harvest(lines, a[1..], ex).sections, Harvest(lines, b, ex));
      }
    }
  }

  /** Two pages whose markers' name and price lines agree harvest alike. */
  lemma {:induction false} HarvestFrame(lines: seq<string>, other: seq<string>, ms: seq<nat>, ex: (string, string) -> Extraction)
    requires |lines| == |other|
    requires forall k :: 0 <= k < |ms| && ms[k] + 3 < |lines| ==>
               lines[ms[k] + 1] == other[ms[k] + 1] && lines[ms[k] + 3] == other[ms[k] + 3]
    ensures Harvest(lines, ms, ex) == Harvest(other, ms, ex)
  {
    if ms != [] {
      assert forall k :: 0 < k < |ms| ==> ms[k] == ms[1..][k - 1];
      HarvestFrame(lines, other, ms[1..], ex);
    }
  }

  /**
   * Every section a page yields is as the block parser builds it: ids and
   * prices are non-negative `i32` values, and a detail item carries the
   * section's id and price and is not sold.
   */
  lemma ScannedSections(lines: seq<string>)
    requires ScanPage(lines).Done?
    ensures forall s :: s in ScanPage(lines).sections ==>
              && Coherent(s) && 0 <= s.orderId <= I32_MAX && 0 <= s.price <= I32_MAX
              && (s.item.Some? ==> s.item.value.price == s.price && !s.item.value.hasSold)
  {
    var ms := Markers(MarkerFlags(lines), 0);
    HarvestSections(lines, ms, ExtractSection);
    forall s | s in ScanPage(lines).sections
      ensures Coherent(s) && 0 <= s.orderId <= I32_MAX && 0 <= s.price <= I32_MAX
      ensures s.item.Some? ==> s.item.value.price == s.price && !s.item.value.hasSold
    {
      var k :| 0 <= k < |ms| && Yields(lines, ms[k], ExtractSection, s);
      assert ExtractSection(lines[ms[k] + 1], lines[ms[k] + 3]) == Parsed(s);
    }
  }

  /** Replacing one line changes only that line's flag. */
  lemma {:induction false} FlagsUpdate(lines: seq<string>, j: nat, t: string)
    requires j < |lines|
    ensures MarkerFlags(lines[j := t]) == MarkerFlags(lines)[j := IsMarker(t)]
  {
    var u := lines[j := t];
    if j > 0 {
      assert u[0] == lines[0] && u[1..] == lines[1..][j - 1 := t];
      FlagsUpdate(lines[1..], j - 1, t);
      UpdatePastHead(IsMarker(lines[0]), MarkerFlags(lines[1..]), j, IsMarker(t));
    } else {
      assert u[1..] == lines[1..];
    }
  }

  /** Updating a position past the head of `[x] + r` updates `r`. */
  lemma UpdatePastHead<T>(x: T, r: seq<T>, j: nat, v: T)
    requires 0 < j <= |r|
    ensures ([x] + r)[j := v] == [x] + r[j - 1 := v]
  {
  }

  /** Markers spaced four apart never read the line two after any of them as a name or price line. */
  lemma BlankNotRead(lines: seq<string>, other: seq<string>, ms: seq<nat>, km: nat)
    requires km < |ms| && ms[km] + 2 < |lines|
    requires forall k1, k2 :: 0 <= k1 < k2 < |ms| ==> ms[k1] + 4 <= ms[k2]
    requires |other| == |lines| && forall j :: 0 <= j < |lines| && j != ms[km] + 2 ==> other[j] == lines[j]
    ensures forall k :: 0 <= k < |ms| && ms[k] + 3 < |lines| ==>
              lines[ms[k] + 1] == other[ms[k] + 1] && lines[ms[k] + 3] == other[ms[k] + 3]
  {
    var m := ms[km];
    forall k | 0 <= k < |ms| && ms[k] + 3 < |lines|
      ensures lines[ms[k] + 1] == other[ms[k] + 1] && lines[ms[k] + 3] == other[ms[k] + 3]
    {
      if k < km {
        assert ms[k] + 4 <= m;
      } else if k > km {
        assert m + 4 <= ms[k];
      }
    }
  }

  /**
   * The line between a block's name line and its price line is discarded
   * whatever it holds: replacing it changes neither the markers nor the
   * outcome of the scan.
   */
  lemma BlankLineIgnored(lines: seq<string>, m: nat, t: string, ex: (string, string) -> Extraction)
    requires m in Markers(MarkerFlags(lines), 0) && m + 2 < |lines|
    ensures Markers(MarkerFlags(lines[m + 2 := t]), 0) == Markers(MarkerFlags(lines), 0)
    ensures Harvest(lines[m + 2 := t], Markers(MarkerFlags(lines[m + 2 := t]), 0), ex)
            == Harvest(lines, Markers(MarkerFlags(lines), 0), ex)
  {
    BlankKeepsMarkers(lines, m, t);
    BlankKeepsHarvest(lines, m, t, ex);
  }

  lemma BlankKeepsMarkers(lines: seq<string>, m: nat, t: string)
    requires m in Markers(MarkerFlags(lines), 0) && m + 2 < |lines|
    ensures Markers(MarkerFlags(lines[m + 2 := t]), 0) == Markers(MarkerFlags(lines), 0)
  {
    FlagsUpdate(lines, m + 2, t);
    MarkersIgnoreBlank(MarkerFlags(lines), 0, m, IsMarker(t));
  }

  lemma BlankKeepsHarvest(lines: seq<string>, m: nat, t: string, ex: (string, string) -> Extraction)
    requires m in Markers(MarkerFlags(lines), 0) && m + 2 < |lines|
    requires Markers(MarkerFlags(lines[m + 2 := t]), 0) == Markers(MarkerFlags(lines), 0)
    ensures Harvest(lines[m + 2 := t], Markers(MarkerFlags(lines[m + 2 := t]), 0), ex)
            == Harvest(lines, Markers(MarkerFlags(lines), 0), ex)
  {
    BlankIgnoredGivenFlags(lines, MarkerFlags(lines), m, t, IsMarker(t), ex);
  }

  /** The same, for any marker flags of the page. */
  lemma BlankIgnoredGivenFlags(lines: seq<string>, flags: seq<bool>, m: nat, t: string, b: bool,
                               ex: (string, string) -> Extraction)
    requires |flags| == |lines| && m in Markers(flags, 0) && m + 2 < |lines|
    ensures Markers(flags[m + 2 := b], 0) == Markers(flags, 0)
    ensures Harvest(lines[m + 2 := t], Markers(flags, 0), ex) == Harvest(lines, Markers(flags, 0), ex)
  {
    var ms := Markers(flags, 0);
    MarkersIgnoreBlank(flags, 0, m, b);
    MarkersSpaced(flags, 0);
    var km :| 0 <= km < |ms| && ms[km] == m;
    BlankNotRead(lines, lines[m + 2 := t], ms, km);
    HarvestFrame(lines, lines[m + 2 := t], ms, ex);
  }

  /** For the block parser of `parse_items`: the page scans alike whatever its blank lines hold. */
  lemma BlankLineIgnoredByScan(lines: seq<string>, m: nat, t: string)
    requires m in Markers(MarkerFlags(lines), 0) && m + 2 < |lines|
    ensures ScanPage(lines[m + 2 := t]) == ScanPage(lines)
  {
    BlankLineIgnored(lines, m, t, ExtractSection);
  }

  // ---- A page whose first block lacks its blank line ----

  /** A trimmed line longer than one character is no marker. */
  lemma NotMarker(s: string)
    requires IsTrimmed(s) && |s| > 1
    ensures !IsMarker(s)
  {
    TrimOfTrimmed(s);
  }

  lemma LineKinds(id: nat, price: nat)
    ensures IsMarker(MARKER)
    ensures !IsMarker("")
    ensures !IsMarker(SoldLine(id))
    ensures !IsMarker(PriceLine(price))
    ensures Captures(MARKER, PriceAt).None?
  {
    TrimOfTrimmed(MARKER);
    TrimOfTrimmed("");
    SoldLineNotMarker(id);
    PriceLineNotMarker(price);
    MarkerHasNoPrice();
  }

  /** A sold line is not a marker: it starts with `(`. */
  lemma SoldLineNotMarker(id: nat)
    ensures !IsMarker(SoldLine(id))
  {
    var s := SoldLine(id);
    assert s[0] == '(' && s[|s| - 1] == Decimal(id)[|Decimal(id)| - 1];
    NotMarker(s);
  }

  /** A price line is not a marker. */
  lemma PriceLineNotMarker(price: nat)
    ensures !IsMarker(PriceLine(price))
  {
    var p := PriceLine(price);
    assert p[0] == '販' && p[|p| - 1] == '円';
    NotMarker(p);
  }

  /** The price pattern finds nothing in the marker line. */
  lemma MarkerHasNoPrice()
    ensures Captures(MARKER, PriceAt).None?
  {
    forall q | 0 <= q <= |MARKER| ensures PriceAt(MARKER, q).None? {
    }
  }

  /** A page of two complete blocks whose sections parse yields both sections, in order. */
  lemma {:induction false} TwoParsedBlocks(lines: seq<string>, s1: ItemSection, s2: ItemSection,
                                           ex: (string, string) -> Extraction)
    requires |lines| == 8 && IsMarker(lines[0]) && IsMarker(lines[4])
    requires ex(lines[1], lines[3]) == Parsed(s1)
    requires ex(lines[5], lines[7]) == Parsed(s2)
    ensures Harvest(lines, Markers(MarkerFlags(lines), 0), ex) == Done([s1, s2])
  {
    CompleteBlockStep(lines, 4, ex);
    assert Markers(MarkerFlags(lines), 8) == [];
    CompleteBlockStep(lines, 0, ex);
  }

  /** A page whose first complete block panics crashes at its first line. */
  lemma {:induction false} FirstBlockPanics(lines: seq<string>, ex: (string, string) -> Extraction)
    requires 3 < |lines| && IsMarker(lines[0])
    requires ex(lines[1], lines[3]) == Panicked
    ensures Harvest(lines, Markers(MarkerFlags(lines), 0), ex) == Crashed(0)
  {
    CompleteBlockStep(lines, 0, ex);
  }

  /** The page of two sold blocks, the first written with or without its blank line. */
  function TwoSoldBlocks(id1: nat, p1: nat, id2: nat, p2: nat, withBlank: bool): seq<string> {
    [MARKER, SoldLine(id1)] + (if withBlank then [""] else []) + [PriceLine(p1), MARKER, SoldLine(id2), "", PriceLine(p2)]
  }

  /** The lines of the page that the scan reads. */
  lemma TwoSoldBlocksLines(id1: nat, p1: nat, id2: nat, p2: nat)
    ensures var g := TwoSoldBlocks(id1, p1, id2, p2, true);
            && |g| == 8 && g[0] == MARKER && g[1] == SoldLine(id1) && g[3] == PriceLine(p1)
            && g[4] == MARKER && g[5] == SoldLine(id2) && g[7] == PriceLine(p2)
    ensures var b := TwoSoldBlocks(id1, p1, id2, p2, false);
            |b| == 7 && b[0] == MARKER && b[1] == SoldLine(id1) && b[3] == MARKER
  {
    assert TwoSoldBlocks(id1, p1, id2, p2, true)
           == [MARKER, SoldLine(id1), "", PriceLine(p1), MARKER, SoldLine(id2), "", PriceLine(p2)];
    assert TwoSoldBlocks(id1, p1, id2, p2, false)
           == [MARKER, SoldLine(id1), PriceLine(p1), MARKER, SoldLine(id2), "", PriceLine(p2)];
  }

  /**
   * Each block must hold its blank line: with it, two sold blocks yield two
   * sections; without it, the next block's marker is read as the first
   * block's price line, the price pattern's `unwrap` fails and the whole
   * scan panics at the first marker.
   */
  lemma MissingBlankLinePanics(id1: nat, p1: nat, id2: nat, p2: nat)
    requires id1 <= I32_MAX && p1 <= I32_MAX && id2 <= I32_MAX && p2 <= I32_MAX
    ensures ScanPage(TwoSoldBlocks(id1, p1, id2, p2, true))
            == Done([ItemSection(None, id1, p1), ItemSection(None, id2, p2)])
    ensures ScanPage(TwoSoldBlocks(id1, p1, id2, p2, false)) == Crashed(0)
  {
    TwoSoldBlocksLines(id1, p1, id2, p2);
    LineKinds(id1, p1);
    SoldRoundTrip(id1, p1);
    SoldRoundTrip(id2, p2);
    TwoParsedBlocks(TwoSoldBlocks(id1, p1, id2, p2, true),
                    ItemSection(None, id1, p1), ItemSection(None, id2, p2), ExtractSection);
    assert ExtractSection(SoldLine(id1), MARKER) == Panicked;
    FirstBlockPanics(TwoSoldBlocks(id1, p1, id2, p2, false), ExtractSection);
  }
}
