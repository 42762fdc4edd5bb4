/**
 * Properties of `parse_item_section` (modelled by `Parsers.ExtractSection`):
 * which name lines fail and how, which fields a success carries, and that a
 * name line and a price line written in the page's format parse back into
 * the item they were written from.
 */
module ExtractorLemmas {
  import opened Wrappers
  import opened Text
  import opened Numbers
  import opened Matchers
  import opened Models
  import opened Parsers

  // ---- The two halves of the name-line parse ----

  /** A split into one part is the line itself. */
  lemma SinglePart(line: string)
    requires |Split(line, SEPARATOR)| == 1
    ensures Split(line, SEPARATOR)[0] == line
  {
  }

  /** Which one-part lines are malformed, and which yield no name (the sold ones). */
  lemma OnePartCases(line: string)
    ensures OnePart(line).NameErr? && OnePart(line).error.InvalidItemFormat?
            <==> Captures(line, SoldAt).None? && Captures(line, VanillaAt).None?
    ensures OnePart(line).NameErr? ==> OnePart(line).error.InvalidItemFormat? || OnePart(line).error.InvalidNumber?
    ensures OnePart(line).NameErr? && OnePart(line).error.InvalidItemFormat? ==> OnePart(line).error.line == line
    ensures OnePart(line).NameOk? ==> (OnePart(line).fields.name.None? <==> Captures(line, SoldAt).Some?)
    ensures OnePart(line).NameOk? && OnePart(line).fields.name.Some? ==>
              OnePart(line).fields.name == Some(Captures(line, VanillaAt).value.name)
  {
    match Captures(line, SoldAt)
    case Some(id) =>
    case None =>
      match Captures(line, VanillaAt)
      case None =>
      case Some(c) =>
  }

  /** Which two-part lines are malformed or carry an unknown exterior, and what a good one yields. */
  lemma TwoPartsCases(line: string, head: string, rest: string)
    ensures var r := TwoParts(line, head, rest);
            r.NameErr? && r.error.InvalidItemFormat? <==> Captures(rest, ItemAt).None?
    ensures var r := TwoParts(line, head, rest);
            r.NameErr? && r.error.InvalidItemFormat? ==> r.error.line == line
    ensures var r := TwoParts(line, head, rest);
            r.NameErr? && r.error.InvalidExterior?
            <==> Captures(rest, ItemAt).Some? && ParseExterior(Captures(rest, ItemAt).value.exterior).None?
    ensures var r := TwoParts(line, head, rest);
            r.NameErr? && r.error.InvalidExterior? ==> r.error.text == Captures(rest, ItemAt).value.exterior
    ensures var r := TwoParts(line, head, rest);
            r.NameOk? ==>
              && r.fields.kind == Some(Captures(rest, ItemAt).value.kind)
              && r.fields.exterior == ParseExterior(Captures(rest, ItemAt).value.exterior)
  {
    match Captures(rest, ItemAt)
    case None =>
    case Some(c) =>
      match ParseExterior(c.exterior)
      case None =>
      case Some(ext) =>
  }

  // ---- Failures ----

  /**
   * `InvalidItemFormat` is reported exactly for a name line of three or more
   * parts, a one-part line that neither the sold nor the vanilla pattern
   * matches, or a two-part line whose second part the item pattern does not
   * match; it always carries the whole name line.
   */
  lemma InvalidItemFormatCases(nameLine: string, priceLine: string)
    ensures var r := ExtractSection(nameLine, priceLine);
            var v := Split(nameLine, SEPARATOR);
            r.Rejected? && r.error.InvalidItemFormat?
            <==> || |v| >= 3
                 || (|v| == 1 && Captures(nameLine, SoldAt).None? && Captures(nameLine, VanillaAt).None?)
                 || (|v| == 2 && Captures(v[1], ItemAt).None?)
    ensures var r := ExtractSection(nameLine, priceLine);
            r.Rejected? && r.error.InvalidItemFormat? ==> r.error.line == nameLine
  {
    var v := Split(nameLine, SEPARATOR);
    if |v| == 1 {
      SinglePart(nameLine);
      OnePartCases(nameLine);
    } else if |v| == 2 {
      TwoPartsCases(nameLine, v[0], v[1]);
    }
  }

  /**
   * `InvalidExterior` is reported exactly when the line has two parts, the
   * item pattern matches the second, and the text it captured between the
   * parentheses is none of the five exterior strings; the error carries that
   * text.
   */
  lemma InvalidExteriorCases(nameLine: string, priceLine: string)
    ensures var r := ExtractSection(nameLine, priceLine);
            var v := Split(nameLine, SEPARATOR);
            r.Rejected? && r.error.InvalidExterior?
            <==> |v| == 2 && Captures(v[1], ItemAt).Some? && ParseExterior(Captures(v[1], ItemAt).value.exterior).None?
    ensures var r := ExtractSection(nameLine, priceLine);
            var v := Split(nameLine, SEPARATOR);
            r.Rejected? && r.error.InvalidExterior? ==>
              && r.error.text == Captures(v[1], ItemAt).value.exterior
              && forall e :: ExteriorName(e) != r.error.text
  {
    var v := Split(nameLine, SEPARATOR);
    if |v| == 1 {
      SinglePart(nameLine);
      OnePartCases(nameLine);
    } else if |v| == 2 {
      TwoPartsCases(nameLine, v[0], v[1]);
    }
  }

  /**
   * The digits the name line's order id is read from: the sold capture, else
   * the vanilla capture, for a one-part line; the item capture, once its
   * exterior is one of the five, for a two-part line.
   */
  function IdDigits(nameLine: string): Option<string> {
    var v := Split(nameLine, SEPARATOR);
    if |v| == 1 then
      if Captures(nameLine, SoldAt).Some? then Captures(nameLine, SoldAt)
      else if Captures(nameLine, VanillaAt).Some? then Some(Captures(nameLine, VanillaAt).value.id)
      else None
    else if |v| == 2 && Captures(v[1], ItemAt).Some? && ParseExterior(Captures(v[1], ItemAt).value.exterior).Some? then
      Some(Captures(v[1], ItemAt).value.id)
    else None
  }

  /** The id digits of a name line the name-line parse reads them from. */
  lemma NameLineId(nameLine: string)
    ensures IdDigits(nameLine).None? ==> ParseNameLine(nameLine).NameErr?
    ensures IdDigits(nameLine).Some? ==>
              var d := IdDigits(nameLine).value;
              && d != [] && AllAsciiDigits(d)
              && (DecimalValue(d) <= I32_MAX ==> ParseNameLine(nameLine).NameOk?)
              && (DecimalValue(d) > I32_MAX ==> ParseNameLine(nameLine) == NameErr(InvalidNumber(PosOverflow)))
              && (ParseNameLine(nameLine).NameOk? ==> ParseNameLine(nameLine).fields.orderId == DecimalValue(d))
  {
    var v := Split(nameLine, SEPARATOR);
    if |v| == 1 {
      SinglePart(nameLine);
      assert ParseNameLine(nameLine) == OnePart(nameLine);
      match Captures(nameLine, SoldAt)
      case Some(id) =>
        assert IdDigits(nameLine) == Some(id);
        ParseDigits(id);
      case None =>
        match Captures(nameLine, VanillaAt)
        case None =>
        case Some(c) =>
          assert IdDigits(nameLine) == Some(c.id);
          ParseDigits(c.id);
    } else if |v| == 2 {
      assert ParseNameLine(nameLine) == TwoParts(nameLine, v[0], v[1]);
      match Captures(v[1], ItemAt)
      case None =>
      case Some(c) =>
        match ParseExterior(c.exterior)
        case None =>
        case Some(ext) =>
          assert IdDigits(nameLine) == Some(c.id);
          ParseDigits(c.id);
    } else {
      assert ParseNameLine(nameLine) == NameErr(InvalidItemFormat(nameLine));
    }
  }

  /**
   * The order id is the number its digits denote; when that number does not
   * fit an `i32` the block fails with `InvalidNumber(PosOverflow)` before the
   * price line is looked at.
   */
  lemma OrderIdFromDigits(nameLine: string, priceLine: string)
    requires IdDigits(nameLine).Some?
    ensures var d := IdDigits(nameLine).value;
            var r := ExtractSection(nameLine, priceLine);
            && d != [] && AllAsciiDigits(d)
            && (DecimalValue(d) > I32_MAX ==> r == Rejected(InvalidNumber(PosOverflow)))
            && (r.Parsed? ==> r.section.orderId == DecimalValue(d))
  {
    NameLineId(nameLine);
  }

  /** How the price line decides the outcome of a block whose name line is accepted. */
  lemma AssemblePrice(f: NameFields, priceLine: string)
    requires IsI32(f.orderId) && f.orderId >= 0
    requires Captures(priceLine, PriceAt).Some?
    ensures var d := RemoveAll(Captures(priceLine, PriceAt).value, ',');
            var r := Assemble(f, priceLine);
            && AllAsciiDigits(d)
            && (d == [] ==> r == Rejected(InvalidNumber(Empty)))
            && (d != [] && DecimalValue(d) > I32_MAX ==> r == Rejected(InvalidNumber(PosOverflow)))
            && (d != [] && DecimalValue(d) <= I32_MAX ==> r.Parsed? && r.section.price == DecimalValue(d))
  {
    var p := Captures(priceLine, PriceAt).value;
    var d := RemoveAll(p, ',');
    assert forall n :: 0 <= n < |d| ==> d[n] in p;
    if d != [] {
      ParseDigits(d);
    }
  }

  /**
   * Once the name line is accepted the price is the captured run with its
   * commas removed, read as a number: a run of commas alone is
   * `InvalidNumber(Empty)`, more than `i32::MAX` is `InvalidNumber(PosOverflow)`.
   */
  lemma PriceFromDigits(nameLine: string, priceLine: string)
    requires ParseNameLine(nameLine).NameOk?
    requires Captures(priceLine, PriceAt).Some?
    ensures var d := RemoveAll(Captures(priceLine, PriceAt).value, ',');
            var r := ExtractSection(nameLine, priceLine);
            && AllAsciiDigits(d)
            && (d == [] ==> r == Rejected(InvalidNumber(Empty)))
            && (d != [] && DecimalValue(d) > I32_MAX ==> r == Rejected(InvalidNumber(PosOverflow)))
            && (d != [] && DecimalValue(d) <= I32_MAX ==> r.Parsed? && r.section.price == DecimalValue(d))
  {
    AssemblePrice(ParseNameLine(nameLine).fields, priceLine);
  }

  // ---- Successes ----

  /** The trimmed name `trimmed` became the item's name and StatTrak flag. */
  predicate NameFrom(trimmed: string, it: Item) {
    && (it.isStattrak <==> STATTRAK <= trimmed)
    && trimmed == (if it.isStattrak then STATTRAK else "") + it.name
  }

  /** The item `Assemble` builds carries the trimmed kind, the exterior and the name without its prefix. */
  lemma AssembleItem(f: NameFields, priceLine: string)
    requires IsI32(f.orderId) && f.orderId >= 0
    requires Assemble(f, priceLine).Parsed? && Assemble(f, priceLine).section.item.Some?
    ensures var it := Assemble(f, priceLine).section.item.value;
            && f.name.Some?
            && it.kind == TrimOption(f.kind)
            && it.exterior == f.exterior
            && NameFrom(Trim(f.name.value), it)
  {
  }

  /**
   * The sold pattern is tried before the vanilla one: a one-part line it
   * matches yields a section without item, even if the vanilla pattern
   * matches too; and only such lines yield no item.
   */
  lemma SoldLineHasNoItem(nameLine: string, priceLine: string)
    requires ExtractSection(nameLine, priceLine).Parsed?
    ensures ExtractSection(nameLine, priceLine).section.item.None?
            <==> |Split(nameLine, SEPARATOR)| == 1 && Captures(nameLine, SoldAt).Some?
  {
    var v := Split(nameLine, SEPARATOR);
    if |v| == 1 {
      SinglePart(nameLine);
      OnePartCases(nameLine);
    }
  }

  /**
   * A parsed item has kind and exterior exactly when its name line has two
   * parts: the kind is the trimmed item capture and the exterior the parsed
   * capture. Its name comes from the trimmed first part, or from the trimmed
   * vanilla capture, with exactly one `StatTrak ` prefix removed when the
   * flag is set.
   */
  lemma ItemFields(nameLine: string, priceLine: string)
    requires ExtractSection(nameLine, priceLine).Parsed?
    requires ExtractSection(nameLine, priceLine).section.item.Some?
    ensures var it := ExtractSection(nameLine, priceLine).section.item.value;
            var v := Split(nameLine, SEPARATOR);
            && (it.kind.Some? <==> |v| == 2)
            && (it.exterior.Some? <==> |v| == 2)
            && (|v| == 2 ==>
                  var c := Captures(v[1], ItemAt).value;
                  && it.kind == Some(Trim(c.kind))
                  && it.exterior == ParseExterior(c.exterior)
                  && NameFrom(Trim(v[0]), it))
            && (|v| == 1 ==>
                  && Captures(nameLine, SoldAt).None?
                  && NameFrom(Trim(Captures(nameLine, VanillaAt).value.name), it))
  {
    var v := Split(nameLine, SEPARATOR);
    var f := ParseNameLine(nameLine).fields;
    AssembleItem(f, priceLine);
    if |v| == 1 {
      SinglePart(nameLine);
      OnePartCases(nameLine);
    } else {
      TwoPartsCases(nameLine, v[0], v[1]);
    }
  }

  // ---- Round trips ----

  /** The name prefix the page writes for a StatTrak item. */
  function StattrakPrefix(stattrak: bool): string {
    if stattrak then STATTRAK else ""
  }

  predicate AllNameChars(s: string) {
    forall i :: 0 <= i < |s| ==> IsNameChar(s[i])
  }

  predicate AllExteriorChars(s: string) {
    forall i :: 0 <= i < |s| ==> IsExteriorChar(s[i])
  }

  /** An item as the page's two-part name line can state it. */
  predicate FullRenderable(it: Item) {
    && it.kind.Some? && it.exterior.Some?
    && 0 <= it.orderId <= I32_MAX
    && 0 <= it.price <= I32_MAX
    && !it.hasSold
    && '|' !in it.name
    && IsTrimmed(StattrakPrefix(it.isStattrak) + it.name)
    && (!it.isStattrak ==> !(STATTRAK <= it.name))
    && it.kind.value != [] && AllNameChars(it.kind.value) && IsTrimmed(it.kind.value)
  }

  /** An item as the page's vanilla name line can state it. */
  predicate VanillaRenderable(it: Item) {
    && it.kind.None? && it.exterior.None?
    && 0 <= it.orderId <= I32_MAX
    && 0 <= it.price <= I32_MAX
    && !it.hasSold
    && StattrakPrefix(it.isStattrak) + it.name != []
    && AllNameChars(StattrakPrefix(it.isStattrak) + it.name)
    && IsTrimmed(StattrakPrefix(it.isStattrak) + it.name)
    && (!it.isStattrak ==> !(STATTRAK <= it.name))
  }

  /**
   * The name line the page shows for an item: the `LowerExp` form followed by
   * ` #id` for an item with a kind, `name (Vanilla) #id` for a vanilla one,
   * each behind `StatTrak ` when the flag is set.
   */
  function NameLine(it: Item): string
    requires it.orderId >= 0
    requires it.kind.Some? ==> it.exterior.Some?
  {
    if it.kind.Some? then StattrakPrefix(it.isStattrak) + LowerExp(it) + " #" + Decimal(it.orderId)
    else StattrakPrefix(it.isStattrak) + it.name + VANILLA_TAG + Decimal(it.orderId)
  }

  /** The name line of a sold block. */
  function SoldLine(id: nat): string {
    SOLD_TAG + Decimal(id)
  }

  /** The price line the page shows for a price, its digits grouped by thousands. */
  function PriceLine(price: nat): string {
    PRICE_LABEL + Grouped(price) + YEN
  }

  /** One group of a grouped number: `r < 1000` in exactly three digits, leading zeros kept. */
  function Group3(r: nat): (g: string)
    requires r < 1000
    ensures |g| == 3 && AllAsciiDigits(g) && DecimalValue(g) == r
  {
    var a, b, c := r / 100, r / 10 % 10, r % 10;
    var g := [DigitChar(a), DigitChar(b), DigitChar(c)];
    assert r == 100 * a + 10 * b + c;
    assert g[..1][..0] == [] && DecimalValue(g[..1]) == a;
    assert g[..2][..1] == g[..1] && DecimalValue(g[..2]) == 10 * a + b;
    assert g[..2] == g[..|g| - 1];
    g
  }

  /** `n` as the shop prints it: decimal digits with a comma before every group of three (`1,234,567`). */
  function Grouped(n: nat): (s: string)
    ensures s != [] && forall i :: 0 <= i < |s| ==> IsPriceChar(s[i])
    decreases n
  {
    if n < 1000 then Decimal(n) else Grouped(n / 1000) + "," + Group3(n % 1000)
  }

  /** Seven digits print as three groups. */
  lemma GroupedExample()
    ensures Grouped(1234567) == "1,234,567"
  {
    GroupedThousands();
    assert Group3(567) == "567";
  }

  /** The smaller example the first one is built on. */
  lemma GroupedThousands()
    ensures Grouped(1234) == "1,234"
  {
    assert Decimal(1) == "1";
    assert Group3(234) == "234";
  }

  /** Removing the commas from a grouped rendering leaves a digit string that denotes the number. */
  lemma {:induction false} GroupedDigits(n: nat)
    ensures RemoveAll(Grouped(n), ',') != []
    ensures AllAsciiDigits(RemoveAll(Grouped(n), ','))
    ensures DecimalValue(RemoveAll(Grouped(n), ',')) == n
    decreases n
  {
    if n < 1000 {
      DigitsHaveNoComma(Decimal(n));
    } else {
      var h := Grouped(n / 1000);
      var g := Group3(n % 1000);
      GroupedDigits(n / 1000);
      DigitsHaveNoComma(g);
      CommasOutOfGroup(h, g);
      GroupValue(RemoveAll(h, ','), n);
    }
  }

  lemma DigitsHaveNoComma(d: string)
    requires AllAsciiDigits(d)
    ensures ',' !in d
  {
    assert forall i :: 0 <= i < |d| ==> IsAsciiDigit(d[i]);
  }

  /** Removing the commas of `h,g` when the group `g` has none. */
  lemma CommasOutOfGroup(h: string, g: string)
    requires ',' !in g
    ensures RemoveAll(h + "," + g, ',') == RemoveAll(h, ',') + g
  {
    RemoveAllAppend(h + ",", g, ',');
    RemoveAllAppend(h, ",", ',');
    RemoveAllOne(',', ',');
  }

  /** The leading digits of `n / 1000` followed by the three-digit group of `n % 1000` denote `n`. */
  lemma GroupValue(hd: string, n: nat)
    requires n >= 1000 && AllAsciiDigits(hd) && DecimalValue(hd) == n / 1000
    ensures AllAsciiDigits(hd + Group3(n % 1000))
    ensures DecimalValue(hd + Group3(n % 1000)) == n
  {
    var g := Group3(n % 1000);
    DecimalValueConcat(hd, g);
    assert Pow10(|g|) == 1000 by {
      assert Pow10(3) == 10 * Pow10(2) && Pow10(2) == 10 * Pow10(1) && Pow10(1) == 10 * Pow10(0);
    }
  }

  /** A digit string at the end of `s` is what `\d+` captures there. */
  lemma DigitsAtEnd(s: string, a: nat, d: string)
    requires a <= |s| && s[a..] == d && d != [] && AllAsciiDigits(d)
    ensures DigitsAt(s, a) == Some(d)
  {
    assert AllIn(s, a, |s|, IsAsciiDigit) by {
      forall k | a <= k < |s| ensures IsAsciiDigit(s[k]) {
        assert s[k] == d[k - a];
      }
    }
    RunEndToEnd(s, a, IsAsciiDigit);
    assert s[a..|s|] == d;
    assert s[a] == d[0];
  }

  lemma NoBarInDigits(d: string)
    requires AllAsciiDigits(d)
    ensures '|' !in d && '売' !in d && ',' !in d
  {
    assert forall n :: 0 <= n < |d| ==> d[n] != '|' && d[n] != '売' && d[n] != ',';
  }

  lemma NoBarInNameChars(s: string)
    requires AllNameChars(s)
    ensures '|' !in s && '売' !in s
  {
    assert forall n :: 0 <= n < |s| ==> s[n] != '|' && s[n] != '売';
  }

  lemma ExteriorNameChars(e: Exterior)
    ensures AllExteriorChars(ExteriorName(e))
    ensures '|' !in ExteriorName(e)
  {
    match e
    case FN => FactoryNewChars();
    case MW => MinimalWearChars();
    case FT => FieldTestedChars();
    case WW => WellWornChars();
    case BS => BattleScarredChars();
    NoBarInExterior(ExteriorName(e));
  }

  /** `|` is not an exterior character, so a string of them has none. */
  lemma NoBarInExterior(x: string)
    requires AllExteriorChars(x)
    ensures '|' !in x
  {
  }

  // One lemma per exterior name, so that each literal is checked in a query of its own.

  lemma FactoryNewChars()
    ensures AllExteriorChars(ExteriorName(FN))
  {
  }

  lemma MinimalWearChars()
    ensures AllExteriorChars(ExteriorName(MW))
  {
  }

  lemma FieldTestedChars()
    ensures AllExteriorChars(ExteriorName(FT))
  {
  }

  lemma WellWornChars()
    ensures AllExteriorChars(ExteriorName(WW))
  {
  }

  lemma BattleScarredChars()
    ensures AllExteriorChars(ExteriorName(BS))
  {
  }

  /** The price line of `price` parses to `price`. */
  lemma PriceLineRoundTrip(price: nat)
    requires price <= I32_MAX
    ensures ParsePrice(PriceLine(price)) == Some(Int(price))
  {
    var s := PriceLine(price);
    var d := Grouped(price);
    var a := |PRICE_LABEL|;
    assert s[..a] == PRICE_LABEL;
    assert OccursAt(s, PRICE_LABEL, 0);
    assert s[a..a + |d|] == d;
    assert s[a + |d|] == '円';
    assert OccursAt(s, YEN, a + |d|);
    assert AllIn(s, a, a + |d|, IsPriceChar) by {
      forall k | a <= k < a + |d| ensures IsPriceChar(s[k]) {
        assert s[k] == d[k - a];
      }
    }
    RunEndUnique(s, a, a + |d|, IsPriceChar);
    assert PriceAt(s, 0) == Some(d);
    CapturesAtStart(s, PriceAt);
    GroupedDigits(price);
    ParseDigits(RemoveAll(d, ','));
  }

  /** Exactly one `StatTrak ` prefix is taken off, and only when it was put on. */
  lemma StripRoundTrip(name: string, stattrak: bool)
    requires !stattrak ==> !(STATTRAK <= name)
    ensures StripStattrak(StattrakPrefix(stattrak) + name) == (name, stattrak)
  {
    var r := StripStattrak(StattrakPrefix(stattrak) + name);
    if stattrak {
      assert STATTRAK <= STATTRAK + name;
      assert r.0 == (STATTRAK + r.0)[|STATTRAK|..] == (STATTRAK + name)[|STATTRAK|..] == name;
    } else {
      assert StattrakPrefix(stattrak) + name == name;
    }
  }

  /** A trimmed name and kind survive the trimming of the second half unchanged. */
  lemma TrimOptionTrimmed(o: Option<string>)
    requires o.Some? ==> IsTrimmed(o.value)
    ensures TrimOption(o) == o
  {
    if o.Some? {
      TrimOfTrimmed(o.value);
    }
  }

  /** The second half of the parse builds the item from fields that trim and strip to its own. */
  lemma AssembleFields(it: Item, head: string, priceLine: string)
    requires 0 <= it.orderId <= I32_MAX && !it.hasSold
    requires ParsePrice(priceLine) == Some(Int(it.price))
    requires TrimOption(Some(head)) == Some(head)
    requires StripStattrak(head) == (it.name, it.isStattrak)
    requires TrimOption(it.kind) == it.kind
    ensures Assemble(NameFields(Some(head), it.kind, it.exterior, it.orderId), priceLine)
            == Parsed(ItemSection(Some(it), it.orderId, it.price))
  {
  }

  /**
   * The second half of the parse gives back the item when its name line
   * carried the name behind its prefix, its kind and exterior, and its id,
   * and the price line its price.
   */
  lemma AssembleRoundTrip(it: Item)
    requires 0 <= it.orderId <= I32_MAX && 0 <= it.price <= I32_MAX && !it.hasSold
    requires IsTrimmed(StattrakPrefix(it.isStattrak) + it.name)
    requires !it.isStattrak ==> !(STATTRAK <= it.name)
    requires it.kind.Some? ==> IsTrimmed(it.kind.value)
    ensures Assemble(NameFields(Some(StattrakPrefix(it.isStattrak) + it.name), it.kind, it.exterior, it.orderId),
                     PriceLine(it.price))
            == Parsed(ItemSection(Some(it), it.orderId, it.price))
  {
    var head := StattrakPrefix(it.isStattrak) + it.name;
    TrimOptionTrimmed(Some(head));
    StripRoundTrip(it.name, it.isStattrak);
    TrimOptionTrimmed(it.kind);
    PriceLineRoundTrip(it.price);
    AssembleFields(it, head, PriceLine(it.price));
  }

  /** The item pattern reads kind, exterior text and digits back out of `kind (Exterior) #id`. */
  lemma ItemPartMatches(kind: string, e: Exterior, id: nat)
    requires kind != [] && AllNameChars(kind)
    ensures Captures(ItemPart(kind, e, id), ItemAt) == Some(ItemCaps(kind, ExteriorName(e), Decimal(id)))
  {
    ExteriorNameChars(e);
    ItemTextMatches(kind, ExteriorName(e), Decimal(id));
  }

  /** `kind (x) #d` for a kind, an exterior text and digits of the pattern's classes. */
  lemma ItemTextMatches(kind: string, x: string, d: string)
    requires kind != [] && AllNameChars(kind)
    requires x != [] && AllExteriorChars(x)
    requires d != [] && AllAsciiDigits(d)
    ensures Captures(kind + EXTERIOR_OPEN + x + EXTERIOR_CLOSE + d, ItemAt) == Some(ItemCaps(kind, x, d))
  {
    var rest := kind + EXTERIOR_OPEN + x + EXTERIOR_CLOSE + d;
    var k := |kind|;
    var m := k + 2 + |x|;
    ItemTextShape(kind, x, d);
    assert rest[0..k] == kind && rest[k + 2..m] == x && rest[m + 3..|rest|] == d;
    ItemAtCaptures(rest, 0, k, m, |rest|);
    CapturesAtStart(rest, ItemAt);
  }

  /** `kind (x) #d` is an instance of the item pattern's shape, its digit run reaching the end. */
  lemma ItemTextShape(kind: string, x: string, d: string)
    requires kind != [] && AllNameChars(kind)
    requires x != [] && AllExteriorChars(x)
    requires d != [] && AllAsciiDigits(d)
    ensures var rest := kind + EXTERIOR_OPEN + x + EXTERIOR_CLOSE + d;
            ItemShape(rest, 0, |kind|, |kind| + 2 + |x|, |rest|)
  {
    var rest := kind + EXTERIOR_OPEN + x + EXTERIOR_CLOSE + d;
    var k := |kind|;
    var m := k + 2 + |x|;
    assert rest[k..k + 2] == EXTERIOR_OPEN;
    assert rest[m..m + 3] == EXTERIOR_CLOSE;
    assert AllIn(rest, 0, k, IsNameChar) by {
      forall n | 0 <= n < k ensures IsNameChar(rest[n]) {
        assert rest[n] == kind[n];
      }
    }
    assert AllIn(rest, k + 2, m, IsExteriorChar) by {
      forall n | k + 2 <= n < m ensures IsExteriorChar(rest[n]) {
        assert rest[n] == x[n - k - 2];
      }
    }
    assert AllIn(rest, m + 3, |rest|, IsAsciiDigit) by {
      forall n | m + 3 <= n < |rest| ensures IsAsciiDigit(rest[n]) {
        assert rest[n] == d[n - m - 3];
      }
    }
  }

  /** The `kind (Exterior) #id` part of an item's two-part name line. */
  function ItemPart(kind: string, e: Exterior, id: nat): string {
    kind + EXTERIOR_OPEN + ExteriorName(e) + EXTERIOR_CLOSE + Decimal(id)
  }

  /** The two-part name line is the name, the separator and the item part, and neither part holds a `|`. */
  lemma FullNameLineParts(it: Item)
    requires FullRenderable(it)
    ensures NameLine(it) == StattrakPrefix(it.isStattrak) + it.name + SEPARATOR
                            + ItemPart(it.kind.value, it.exterior.value, it.orderId)
    ensures '|' !in StattrakPrefix(it.isStattrak) + it.name
    ensures '|' !in ItemPart(it.kind.value, it.exterior.value, it.orderId)
  {
    FullNameLineIs(it);
    ItemPartNoBar(it.kind.value, it.exterior.value, it.orderId);
    assert '|' !in StattrakPrefix(it.isStattrak);
  }

  /** The two-part name line regrouped as the head, the separator and the item part. */
  lemma FullNameLineIs(it: Item)
    requires it.kind.Some? && it.exterior.Some? && it.orderId >= 0
    ensures NameLine(it) == StattrakPrefix(it.isStattrak) + it.name + SEPARATOR
                            + ItemPart(it.kind.value, it.exterior.value, it.orderId)
  {
    var p := StattrakPrefix(it.isStattrak);
    var n := it.name + SEPARATOR;
    var q := it.kind.value + EXTERIOR_OPEN + ExteriorName(it.exterior.value);
    var d := Decimal(it.orderId);
    assert LowerExp(it) == n + q + ")" by {
      Regroup(n, it.kind.value, EXTERIOR_OPEN, ExteriorName(it.exterior.value));
    }
    assert NameLine(it) == p + (n + q + ")") + " #" + d;
    assert ")" + " #" == EXTERIOR_CLOSE;
    Flatten(p, n, q, ")", " #", d);
  }

  lemma Regroup<T>(a: seq<T>, b: seq<T>, c: seq<T>, d: seq<T>)
    ensures a + b + c + d == a + (b + c + d)
  {
  }

  lemma Flatten<T>(p: seq<T>, n: seq<T>, q: seq<T>, c1: seq<T>, c2: seq<T>, d: seq<T>)
    ensures p + (n + q + c1) + c2 + d == p + n + (q + (c1 + c2) + d)
  {
  }

  /** The item part holds no `|`. */
  lemma ItemPartNoBar(kind: string, e: Exterior, id: nat)
    requires AllNameChars(kind)
    ensures '|' !in ItemPart(kind, e, id)
  {
    NoBarInNameChars(kind);
    ExteriorNameChars(e);
    NoBarInDigits(Decimal(id));
  }

  /** The two-part half of the name-line parse reads back kind, exterior and id. */
  lemma TwoPartsRoundTrip(line: string, head: string, kind: string, e: Exterior, id: nat)
    requires kind != [] && AllNameChars(kind) && id <= I32_MAX
    ensures TwoParts(line, head, ItemPart(kind, e, id)) == NameOk(NameFields(Some(head), Some(kind), Some(e), id))
  {
    ItemPartMatches(kind, e, id);
    ExteriorRoundTrip(e);
    ParseDecimal(id);
  }

  /**
   * An item with kind and exterior, written as the page writes it, parses
   * back into exactly that item, with its order id and price.
   */
  lemma FullItemRoundTrip(it: Item)
    requires FullRenderable(it)
    ensures ExtractSection(NameLine(it), PriceLine(it.price)) == Parsed(ItemSection(Some(it), it.orderId, it.price))
  {
    var head := StattrakPrefix(it.isStattrak) + it.name;
    var rest := ItemPart(it.kind.value, it.exterior.value, it.orderId);
    var line := NameLine(it);
    FullNameLineParts(it);
    SplitInTwo(head, SEPARATOR, rest);
    assert ParseNameLine(line) == TwoParts(line, head, rest);
    TwoPartsRoundTrip(line, head, it.kind.value, it.exterior.value, it.orderId);
    AssembleRoundTrip(it);
  }

  /** The sold pattern cannot match a line without its second character. */
  lemma NoSoldMatch(s: string)
    requires '売' !in s
    ensures Captures(s, SoldAt).None?
  {
    forall i | 0 <= i <= |s| ensures SoldAt(s, i).None? {
      OccursAtChar(s, SOLD_TAG, i, 1);
    }
  }

  /** The vanilla pattern reads name and digits back out of `name (Vanilla) #id`. */
  lemma VanillaLineMatches(head: string, id: nat)
    requires head != [] && AllNameChars(head)
    ensures var line := head + VANILLA_TAG + Decimal(id);
            Captures(line, VanillaAt) == Some(VanillaCaps(head, Decimal(id)))
  {
    var d := Decimal(id);
    var line := head + VANILLA_TAG + d;
    var k := |head|;
    VanillaLineShape(head, d);
    VanillaAtCaptures(line, 0, k, |line|);
    CapturesAtStart(line, VanillaAt);
  }

  /** A name, the vanilla tag and a digit run form the vanilla shape, with the name and digits as its groups. */
  lemma VanillaLineShape(head: string, d: string)
    requires head != [] && AllNameChars(head) && d != [] && AllAsciiDigits(d)
    ensures var line := head + VANILLA_TAG + d;
            && VanillaShape(line, 0, |head|, |line|)
            && line[0..|head|] == head && line[|head| + |VANILLA_TAG|..|line|] == d
  {
    var line := head + VANILLA_TAG + d;
    var k := |head|;
    assert line[..k] == head;
    assert line[k..k + |VANILLA_TAG|] == VANILLA_TAG;
    assert line[k + |VANILLA_TAG|..] == d;
    assert AllIn(line, 0, k, IsNameChar) by {
      forall n | 0 <= n < k ensures IsNameChar(line[n]) {
        assert line[n] == head[n];
      }
    }
    assert AllIn(line, k + |VANILLA_TAG|, |line|, IsAsciiDigit) by {
      forall n | k + |VANILLA_TAG| <= n < |line| ensures IsAsciiDigit(line[n]) {
        assert line[n] == d[n - k - |VANILLA_TAG|];
      }
    }
    assert VanillaShape(line, 0, k, |line|);
    assert line[0..k] == head && line[k + |VANILLA_TAG|..|line|] == d;
  }

  /** A vanilla item, written as the page writes it, parses back into exactly that item. */
  lemma VanillaItemRoundTrip(it: Item)
    requires VanillaRenderable(it)
    ensures ExtractSection(NameLine(it), PriceLine(it.price)) == Parsed(ItemSection(Some(it), it.orderId, it.price))
  {
    var head := StattrakPrefix(it.isStattrak) + it.name;
    var d := Decimal(it.orderId);
    var line := NameLine(it);
    assert line == head + VANILLA_TAG + d;
    NoBarInNameChars(head);
    NoBarInDigits(d);
    assert '|' !in line && '売' !in line;
    NoOccurrence(line, SEPARATOR);
    SplitWithoutSeparator(line, SEPARATOR);
    assert ParseNameLine(line) == OnePart(line);
    NoSoldMatch(line);
    VanillaLineMatches(head, it.orderId);
    ParseDecimal(it.orderId);
    assert OnePart(line) == NameOk(NameFields(Some(head), None, None, it.orderId));
    AssembleRoundTrip(it);
  }

  /** A sold block parses to a section without item, carrying its order id and price. */
  lemma SoldRoundTrip(id: nat, price: nat)
    requires id <= I32_MAX && price <= I32_MAX
    ensures ExtractSection(SoldLine(id), PriceLine(price)) == Parsed(ItemSection(None, id, price))
  {
    var d := Decimal(id);
    var line := SoldLine(id);
    var a := |SOLD_TAG|;
    assert line[..a] == SOLD_TAG;
    assert line[a..] == d;
    NoBarInDigits(d);
    assert '|' !in line;
    NoOccurrence(line, SEPARATOR);
    SplitWithoutSeparator(line, SEPARATOR);
    assert ParseNameLine(line) == OnePart(line);
    assert OccursAt(line, SOLD_TAG, 0);
    DigitsAtEnd(line, a, d);
    assert SoldAt(line, 0) == Some(d);
    CapturesAtStart(line, SoldAt);
    ParseDecimal(id);
    assert OnePart(line) == NameOk(NameFields(None, None, None, id));
    PriceLineRoundTrip(price);
  }
}
