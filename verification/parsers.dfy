/**
 * The section parser of parsers.rs: `parse_item_section`, which turns one
 * name line and one price line into an `ItemSection`, and `parse_items`,
 * which scans the page's text lines for `★` markers and hands each block
 * to it.
 */
module Parsers {
  import opened Wrappers
  import opened Text
  import opened Numbers
  import opened Matchers
  import opened Models

  const STATTRAK: string := "StatTrak "
  const MARKER: string := "★"

  /** One parsed block: the item is absent when the block only says the item has sold. */
  datatype ItemSection = ItemSection(item: Option<Item>, orderId: int, price: int)

  /** A section whose detail item, if any, carries the section's own `order_id`. */
  predicate Coherent(s: ItemSection) {
    s.item.Some? ==> s.item.value.orderId == s.orderId
  }

  /** `ParseError`; `InvalidNumber` carries the kind of the `ParseIntError` it wraps. */
  datatype ParseError =
    | InvalidItemFormat(line: string)
    | InvalidNumber(kind: IntErrorKind)
    | InvalidExterior(text: string)

  /**
   * What `parse_item_section` does: return a section, return an error, or
   * panic at the `unwrap` of a price line the price pattern does not match.
   */
  datatype Extraction = Parsed(section: ItemSection) | Rejected(error: ParseError) | Panicked

  /** The fields read off the name line, before trimming. */
  datatype NameFields = NameFields(name: Option<string>, kind: Option<string>, exterior: Option<Exterior>, orderId: int)

  datatype NameParse = NameOk(fields: NameFields) | NameErr(error: ParseError)

  /** `order_id = digits.parse()?` and the fields that go with it. */
  function WithOrderId(digits: string, name: Option<string>, kind: Option<string>, exterior: Option<Exterior>): (r: NameParse)
    ensures r.NameErr? ==> r.error.InvalidNumber?
    ensures r.NameOk? <==> ParseI32(digits).Int?
    ensures r.NameOk? ==> r.fields == NameFields(name, kind, exterior, ParseI32(digits).value)
    ensures r.NameErr? ==> r.error == InvalidNumber(ParseI32(digits).kind)
  {
    match ParseI32(digits)
    case Int(n) => NameOk(NameFields(name, kind, exterior, n))
    case IntError(k) => NameErr(InvalidNumber(k))
  }

  /**
   * A name line without `" | "`: a sold line when the sold pattern matches
   * (tried first), else a vanilla line, else malformed.
   */
  function OnePart(line: string): (r: NameParse)
    ensures r.NameOk? ==> IsI32(r.fields.orderId) && r.fields.orderId >= 0
    ensures r.NameOk? ==> r.fields.kind.None? && r.fields.exterior.None?
  {
    match Captures(line, SoldAt)
    case Some(id) => ParsedIdIsNatural(id); WithOrderId(id, None, None, None)
    case None =>
      match Captures(line, VanillaAt)
      case None => NameErr(InvalidItemFormat(line))
      case Some(c) => ParsedIdIsNatural(c.id); WithOrderId(c.id, Some(c.name), None, None)
  }

  /**
   * A name line of two parts: the name, then `kind (exterior) #id`; the
   * exterior text must be one of the five grades.
   */
  function TwoParts(line: string, head: string, rest: string): (r: NameParse)
    ensures r.NameOk? ==> IsI32(r.fields.orderId) && r.fields.orderId >= 0
    ensures r.NameOk? ==> r.fields.name == Some(head) && r.fields.kind.Some? && r.fields.exterior.Some?
  {
    match Captures(rest, ItemAt)
    case None => NameErr(InvalidItemFormat(line))
    case Some(c) =>
      match ParseExterior(c.exterior)
      case None => NameErr(InvalidExterior(c.exterior))
      case Some(ext) => ParsedIdIsNatural(c.id); WithOrderId(c.id, Some(head), Some(c.kind), Some(ext))
  }

  /**
   * The first half of `parse_item_section`: split the name line on `" | "`;
   * one part is a sold or vanilla line, two parts are a name and a
   * `kind (exterior) #id` part, anything else is malformed.
   */
  function ParseNameLine(line: string): (r: NameParse)
    ensures r.NameOk? ==> IsI32(r.fields.orderId) && r.fields.orderId >= 0
    ensures r.NameOk? ==> (r.fields.kind.Some? <==> r.fields.exterior.Some?)
    ensures r.NameOk? && r.fields.kind.Some? ==> r.fields.name.Some?
  {
    var v := Split(line, SEPARATOR);
    if |v| == 1 then OnePart(v[0])
    else if |v| == 2 then TwoParts(line, v[0], v[1])
    else NameErr(InvalidItemFormat(line))
  }

  /** A digit string never parses to a negative number. */
  lemma ParsedIdIsNatural(digits: string)
    requires digits != [] && AllAsciiDigits(digits)
    ensures ParseI32(digits).Int? ==> ParseI32(digits).value >= 0
  {
    ParseDigits(digits);
  }

  /** `Option::map(trim)` */
  function TrimOption(o: Option<string>): Option<string> {
    if o.Some? then Some(Trim(o.value)) else None
  }

  /**
   * The StatTrak check: when the name starts with `StatTrak `, exactly that
   * prefix is drained and the flag is set; otherwise the name stays.
   */
  function StripStattrak(name: string): (r: (string, bool))
    ensures r.1 <==> STATTRAK <= name
    ensures r.1 ==> name == STATTRAK + r.0
    ensures !r.1 ==> r.0 == name
  {
    if STATTRAK <= name then
      assert name == STATTRAK + name[|STATTRAK|..];
      (name[|STATTRAK|..], true)
    else (name, false)
  }

  /** The price: the captured digits and commas, commas removed, parsed as an `i32`. */
  function ParsePrice(priceLine: string): Option<ParsedInt> {
    match Captures(priceLine, PriceAt)
    case None => None
    case Some(p) => Some(ParseI32(RemoveAll(p, ',')))
  }

  /**
   * The second half of `parse_item_section`, once the name line has given
   * `f`: trim name and kind, strip the StatTrak prefix, read the price.
   */
  function Assemble(f: NameFields, priceLine: string): (r: Extraction)
    requires IsI32(f.orderId) && f.orderId >= 0
    ensures r.Parsed? ==> r.section.orderId == f.orderId && 0 <= r.section.price <= I32_MAX
    ensures r.Parsed? ==> (r.section.item.Some? <==> f.name.Some?)
    ensures r.Rejected? ==> r.error.InvalidNumber?
    ensures r.Panicked? <==> Captures(priceLine, PriceAt).None?
  {
    var name := TrimOption(f.name);
    var kind := TrimOption(f.kind);
    var (shown, stattrak) := if name.Some? then StripStattrak(name.value) else ("", false);
    match ParsePrice(priceLine)
    case None => Panicked
    case Some(IntError(k)) => Rejected(InvalidNumber(k))
    case Some(Int(price)) =>
      PriceIsNatural(priceLine);
      if name.Some? then
        Parsed(ItemSection(Some(Item(f.orderId, shown, kind, f.exterior, price, false, stattrak)), f.orderId, price))
      else
        Parsed(ItemSection(None, f.orderId, price))
  }

  /** `parse_item_section(name_line, price_line)` */
  function ExtractSection(nameLine: string, priceLine: string): (r: Extraction)
    ensures r.Parsed? ==> IsI32(r.section.orderId) && r.section.orderId >= 0
    ensures r.Parsed? ==> 0 <= r.section.price <= I32_MAX
    ensures r.Parsed? && r.section.item.Some? ==>
              var it := r.section.item.value;
              && it.orderId == r.section.orderId
              && it.price == r.section.price
              && !it.hasSold
              && (it.kind.Some? <==> it.exterior.Some?)
              && (it.kind.Some? ==> IsTrimmed(it.kind.value))
    ensures ParseNameLine(nameLine).NameErr? ==> r == Rejected(ParseNameLine(nameLine).error)
    ensures ParseNameLine(nameLine).NameOk? && r.Rejected? ==> r.error.InvalidNumber?
    ensures r.Panicked? <==> ParseNameLine(nameLine).NameOk? && Captures(priceLine, PriceAt).None?
  {
    match ParseNameLine(nameLine)
    case NameErr(e) => Rejected(e)
    case NameOk(f) => Assemble(f, priceLine)
  }

  /** A parsed price is never negative: the capture holds no sign. */
  lemma PriceIsNatural(priceLine: string)
    ensures ParsePrice(priceLine).Some? && ParsePrice(priceLine).value.Int? ==> ParsePrice(priceLine).value.value >= 0
  {
    match Captures(priceLine, PriceAt)
    case None =>
    case Some(p) =>
      var d := RemoveAll(p, ',');
      if d != [] {
        assert forall n :: 0 <= n < |d| ==> d[n] in p;
        assert AllAsciiDigits(d);
        ParseDigits(d);
      }
  }

  // ---- parse_items ----

  /** A line is a block marker when it trims to `★`. */
  predicate IsMarker(line: string) {
    Trim(line) == MARKER
  }

  /** Which lines of the page are block markers, line by line. */
  function MarkerFlags(lines: seq<string>): (flags: seq<bool>)
    ensures |flags| == |lines|
  {
    if lines == [] then [] else [IsMarker(lines[0])] + MarkerFlags(lines[1..])
  }

  /** The flag of line `j` says whether line `j` is a marker. */
  lemma {:induction false} MarkerFlagAt(lines: seq<string>, j: nat)
    requires j < |lines|
    ensures MarkerFlags(lines)[j] == IsMarker(lines[j])
  {
    if j > 0 {
      MarkerFlagAt(lines[1..], j - 1);
    }
  }

  /**
   * The indices of the lines `parse_items` takes as block markers when it
   * scans from index `i`, given which lines are markers: after a marker the
   * next three lines belong to the block, whatever they hold, and scanning
   * resumes after them.
   */
  function Markers(flags: seq<bool>, i: nat): seq<nat>
    decreases |flags| - i
  {
    if i >= |flags| then []
    else if flags[i] then [i] + Markers(flags, i + 4)
    else Markers(flags, i + 1)
  }

  /** A marker at `m` is followed by its name, blank and price lines. */
  predicate IsComplete(lines: seq<string>, m: nat) {
    m + 3 < |lines|
  }

  /** The block parser applied to the name and price lines of the block at marker `m`. */
  function BlockOutcome(lines: seq<string>, m: nat, extract: (string, string) -> Extraction): Extraction
    requires IsComplete(lines, m)
  {
    extract(lines[m + 1], lines[m + 3])
  }

  /**
   * What `parse_items` ends with: the sections in page order, or the panic
   * at the block whose price line the price pattern does not match.
   */
  datatype Scan = Done(sections: seq<ItemSection>) | Crashed(marker: nat)

  /** The sections `done` put in front of the outcome of the rest of the scan. */
  function Prepend(done: seq<ItemSection>, rest: Scan): Scan {
    match rest
    case Done(ss) => Done(done + ss)
    case Crashed(m) => Crashed(m)
  }

  /**
   * The outcome of handing the blocks at markers `ms` to the block parser
   * `extract` in order: a truncated block or a rejected one is dropped, a
   * parsed one is kept, and a panic ends everything. `parse_items` uses
   * `ExtractSection`; the scan's own properties hold for any block parser.
   */
  function Harvest(lines: seq<string>, ms: seq<nat>, extract: (string, string) -> Extraction): Scan {
    if ms == [] then Done([])
    else
      var m := ms[0];
      if !IsComplete(lines, m) then Harvest(lines, ms[1..], extract)
      else
        match BlockOutcome(lines, m, extract)
        case Panicked => Crashed(m)
        case Rejected(_) => Harvest(lines, ms[1..], extract)
        case Parsed(section) => Prepend([section], Harvest(lines, ms[1..], extract))
  }

  /** What `parse_items` returns for a page: its marked blocks parsed by `parse_item_section`. */
  function ScanPage(lines: seq<string>): Scan {
    Harvest(lines, Markers(MarkerFlags(lines), 0), ExtractSection)
  }

  /** The scan from a truncated block's marker on: nothing is left to harvest. */
  lemma TruncatedBlockStep(lines: seq<string>, m: nat, extract: (string, string) -> Extraction)
    requires m < |lines| && IsMarker(lines[m]) && !IsComplete(lines, m)
    ensures Harvest(lines, Markers(MarkerFlags(lines), m), extract) == Done([])
  {
    MarkerFlagAt(lines, m);
    assert Markers(MarkerFlags(lines), m) == [m];
  }

  /** The scan from a complete block's marker on: that block's outcome, then the scan after its price line. */
  lemma CompleteBlockStep(lines: seq<string>, m: nat, extract: (string, string) -> Extraction)
    requires IsComplete(lines, m) && IsMarker(lines[m])
    ensures Harvest(lines, Markers(MarkerFlags(lines), m), extract) ==
              match extract(lines[m + 1], lines[m + 3])
              case Panicked => Crashed(m)
              case Rejected(_) => Harvest(lines, Markers(MarkerFlags(lines), m + 4), extract)
              case Parsed(section) => Prepend([section], Harvest(lines, Markers(MarkerFlags(lines), m + 4), extract))
  {
    MarkerFlagAt(lines, m);
    var ms := Markers(MarkerFlags(lines), m);
    assert ms == [m] + Markers(MarkerFlags(lines), m + 4);
    assert ms[1..] == Markers(MarkerFlags(lines), m + 4);
  }

  lemma PrependTwice(a: seq<ItemSection>, b: seq<ItemSection>, rest: Scan)
    ensures Prepend(a, Prepend(b, rest)) == Prepend(a + b, rest)
  {
    if rest.Done? {
      assert a + (b + rest.sections) == (a + b) + rest.sections;
    }
  }

  /**
   * `parse_items`: read lines until a marker, then take the name line,
   * discard the blank line, take the price line and parse the block; a
   * missing line or a parse error drops the block and scanning goes on.
   */
  method ParseItems(lines: seq<string>) returns (scan: Scan)
    ensures scan == ScanPage(lines)
  {
    var items: seq<ItemSection> := [];
    var i := 0;
    ghost var flags := MarkerFlags(lines);
    while i < |lines|
      invariant i <= |lines|
      invariant ScanPage(lines) == Prepend(items, Harvest(lines, Markers(flags, i), ExtractSection))
      decreases |lines| - i
    {
      var t := lines[i];
      var m := i;
      MarkerFlagAt(lines, m);
      i := i + 1;
      if Trim(t) != MARKER {
        continue;
      }
      if i == |lines| {
        // no item name line
        TruncatedBlockStep(lines, m, ExtractSection);
        continue;
      }
      var nameLine := lines[i];
      i := i + 1;
      if i == |lines| {
        // no blank line
        TruncatedBlockStep(lines, m, ExtractSection);
        continue;
      }
      i := i + 1;
      if i == |lines| {
        // no price line
        TruncatedBlockStep(lines, m, ExtractSection);
        continue;
      }
      var priceLine := lines[i];
      i := i + 1;
      CompleteBlockStep(lines, m, ExtractSection);
      var outcome := ExtractSection(nameLine, priceLine);
      if outcome.Panicked? {
        return Crashed(m);
      } else if outcome.Parsed? {
        PrependTwice(items, [outcome.section], Harvest(lines, Markers(flags, i), ExtractSection));
        items := items + [outcome.section];
      }
    }
    assert items + [] == items;
    return Done(items);
  }
}
