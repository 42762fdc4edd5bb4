/**
 * The four regular expressions of the parser (parsers.rs lines 10-15), each
 * as a function that tries to match at one start index, together with the
 * leftmost search that `Regex::captures` performs.
 *
 * The patterns are unanchored, so a line "matches" when a match starts
 * anywhere in it. The Rust engine picks the leftmost start and, at that start,
 * the first match in greedy order; for these four patterns that choice is
 * unique, and each `...At` function computes it directly: a greedy run of a
 * character class followed by a literal that begins outside the class can
 * only end where the run ends. Each `...At` function is specified against a
 * `...Shape` predicate that says, without any search, what it means for the
 * pattern to match at a start index.
 *
 * `\d` is taken to be the ASCII digits.
 */
module Matchers {
  import opened Wrappers
  import opened Text
  import opened Numbers

  /** The literal text of the sold pattern `\(売約済み\) #(\d+)` before its digits. */
  const SOLD_TAG: string := "(売約済み) #"
  /** The literal text of the vanilla pattern between the name and the digits. */
  const VANILLA_TAG: string := " (Vanilla) #"
  /** The literal text of the item pattern between kind and exterior. */
  const EXTERIOR_OPEN: string := " ("
  /** The literal text of the item pattern between exterior and digits. */
  const EXTERIOR_CLOSE: string := ") #"
  /** The literal text of the price pattern `販売価格: ([0-9,]+)円 *` before its digits. */
  const PRICE_LABEL: string := "販売価格: "
  const YEN: string := "円"

  /** `[A-Za-z ]` */
  predicate IsNameChar(c: char) {
    ('A' <= c <= 'Z') || ('a' <= c <= 'z') || c == ' '
  }

  /** `[-A-Za-z ]` */
  predicate IsExteriorChar(c: char) {
    c == '-' || IsNameChar(c)
  }

  /** `[0-9,]` */
  predicate IsPriceChar(c: char) {
    IsAsciiDigit(c) || c == ','
  }

  /** Every character of `s[a..b]` belongs to `cls`. */
  predicate AllIn(s: string, a: int, b: int, cls: char -> bool)
    requires 0 <= a <= b <= |s|
  {
    forall k :: a <= k < b ==> cls(s[k])
  }

  /** The end of the longest run of `cls` characters starting at `i`. */
  function RunEnd(s: string, i: nat, cls: char -> bool): (j: nat)
    requires i <= |s|
    ensures i <= j <= |s|
    ensures AllIn(s, i, j, cls)
    ensures j == |s| || !cls(s[j])
    decreases |s| - i
  {
    if i < |s| && cls(s[i]) then RunEnd(s, i + 1, cls) else i
  }

  /** A run of `cls` from `i` to `k` that is followed by a non-member ends where the longest run ends. */
  lemma RunEndUnique(s: string, i: nat, k: nat, cls: char -> bool)
    requires i <= k < |s| && AllIn(s, i, k, cls) && !cls(s[k])
    ensures RunEnd(s, i, cls) == k
  {
  }

  /** A run of `cls` that reaches the end of the text is the longest run. */
  lemma {:induction false} RunEndToEnd(s: string, i: nat, cls: char -> bool)
    requires i <= |s| && AllIn(s, i, |s|, cls)
    ensures RunEnd(s, i, cls) == |s|
    decreases |s| - i
  {
    if i < |s| {
      RunEndToEnd(s, i + 1, cls);
    }
  }

  /** A maximal run of `cls` from `i` to `k`, whether or not it reaches the end of the text. */
  lemma RunEndMaximal(s: string, i: nat, k: nat, cls: char -> bool)
    requires i <= k <= |s| && AllIn(s, i, k, cls) && (k == |s| || !cls(s[k]))
    ensures RunEnd(s, i, cls) == k
  {
    if k < |s| {
      RunEndUnique(s, i, k, cls);
    } else {
      RunEndToEnd(s, i, cls);
    }
  }

  /** `\d+` matched greedily at `d`: the digits up to the first non-digit. */
  function DigitsAt(s: string, d: nat): (r: Option<string>)
    ensures r.Some? <==> d < |s| && IsAsciiDigit(s[d])
    ensures r.Some? ==> r.value != [] && AllAsciiDigits(r.value)
  {
    if d >= |s| then None
    else
      var e := RunEnd(s, d, IsAsciiDigit);
      if e > d then Some(s[d..e]) else None
  }

  /** A maximal non-empty digit run from `d` to `e` is what `\d+` captures at `d`. */
  lemma DigitsAtRun(s: string, d: nat, e: int)
    requires d < e <= |s| && AllIn(s, d, e, IsAsciiDigit) && (e == |s| || !IsAsciiDigit(s[e]))
    ensures DigitsAt(s, d) == Some(s[d..e])
  {
    RunEndMaximal(s, d, e, IsAsciiDigit);
  }

  // ---- The sold pattern `\(売約済み\) #(\d+)` ----

  /** The sold pattern matches at `i` and its digits end at `e`. */
  predicate SoldShape(s: string, i: int, e: int) {
    && 0 <= i
    && OccursAt(s, SOLD_TAG, i)
    && i + |SOLD_TAG| < e <= |s|
    && AllIn(s, i + |SOLD_TAG|, e, IsAsciiDigit)
  }

  /** The digits the sold pattern captures when it matches at `i`. */
  function SoldAt(s: string, i: nat): (r: Option<string>)
    ensures r.Some? ==> r.value != [] && AllAsciiDigits(r.value)
  {
    if OccursAt(s, SOLD_TAG, i) then DigitsAt(s, i + |SOLD_TAG|) else None
  }

  /** `SoldAt` succeeds exactly where the sold pattern matches, capturing the whole digit run. */
  lemma SoldAtMeaning(s: string, i: nat)
    ensures SoldAt(s, i).Some? <==> exists e :: SoldShape(s, i, e)
    ensures SoldAt(s, i).Some? ==>
              exists e :: SoldShape(s, i, e) && SoldAt(s, i).value == s[i + |SOLD_TAG|..e]
                          && (e == |s| || !IsAsciiDigit(s[e]))
  {
    if SoldAt(s, i).Some? {
      var e := RunEnd(s, i + |SOLD_TAG|, IsAsciiDigit);
      assert SoldShape(s, i, e);
    }
  }

  // ---- The vanilla pattern `([A-Za-z ]+) \(Vanilla\) #(\d+)` ----

  /** Captures of the vanilla pattern: the name run and the order-id digits. */
  datatype VanillaCaps = VanillaCaps(name: string, id: string)

  /** The vanilla pattern matches at `i` with its name ending at `k` and its digits at `e`. */
  predicate VanillaShape(s: string, i: int, k: int, e: int) {
    && 0 <= i < k
    && OccursAt(s, VANILLA_TAG, k)
    && k + |VANILLA_TAG| < e <= |s|
    && AllIn(s, i, k, IsNameChar)
    && AllIn(s, k + |VANILLA_TAG|, e, IsAsciiDigit)
  }

  /** The vanilla pattern tried at `i`: the name run must end in the space that opens the tag. */
  function VanillaAt(s: string, i: nat): (r: Option<VanillaCaps>)
    ensures r.Some? ==> r.value.id != [] && AllAsciiDigits(r.value.id)
  {
    if i > |s| then None
    else
      var j := RunEnd(s, i, IsNameChar);
      if j >= i + 2 && OccursAt(s, VANILLA_TAG, j - 1) then
        match DigitsAt(s, j - 1 + |VANILLA_TAG|)
        case Some(id) => Some(VanillaCaps(s[i..j - 1], id))
        case None => None
      else None
  }

  /** In a vanilla match the name ends one character before the longest name run does. */
  lemma VanillaShapeName(s: string, i: int, k: int, e: int)
    requires VanillaShape(s, i, k, e)
    ensures RunEnd(s, i, IsNameChar) == k + 1
  {
    OccursAtChar(s, VANILLA_TAG, k, 0);
    OccursAtChar(s, VANILLA_TAG, k, 1);
    RunEndUnique(s, i, k + 1, IsNameChar);
  }

  /** Where the vanilla pattern matches with a maximal digit run, `VanillaAt` captures its two groups. */
  lemma VanillaAtCaptures(s: string, i: nat, k: int, e: int)
    requires VanillaShape(s, i, k, e) && (e == |s| || !IsAsciiDigit(s[e]))
    ensures VanillaAt(s, i) == Some(VanillaCaps(s[i..k], s[k + |VANILLA_TAG|..e]))
  {
    VanillaShapeName(s, i, k, e);
    var d := k + |VANILLA_TAG|;
    assert IsAsciiDigit(s[d]);
    RunEndMaximal(s, d, e, IsAsciiDigit);
  }

  /**
   * `VanillaAt` succeeds exactly where the vanilla pattern matches; its
   * captures are the name before the tag and the whole digit run after it.
   */
  lemma VanillaAtMeaning(s: string, i: nat)
    ensures VanillaAt(s, i).Some? <==> exists k, e :: VanillaShape(s, i, k, e)
    ensures VanillaAt(s, i).Some? ==>
              exists k, e :: VanillaShape(s, i, k, e) && (e == |s| || !IsAsciiDigit(s[e]))
                             && VanillaAt(s, i).value == VanillaCaps(s[i..k], s[k + |VANILLA_TAG|..e])
  {
    if VanillaAt(s, i).Some? {
      var j := RunEnd(s, i, IsNameChar);
      var e := RunEnd(s, j - 1 + |VANILLA_TAG|, IsAsciiDigit);
      assert VanillaShape(s, i, j - 1, e);
    }
    forall k, e | VanillaShape(s, i, k, e) ensures VanillaAt(s, i).Some? {
      VanillaShapeName(s, i, k, e);
    }
  }

  // ---- The item pattern `([A-Za-z ]+) \(([-A-Za-z ]+)\) #(\d+)` ----

  /** Captures of the item pattern: kind, exterior text and order-id digits. */
  datatype ItemCaps = ItemCaps(kind: string, exterior: string, id: string)

  /**
   * The item pattern matches at `i` with its kind ending at `k`, its exterior
   * ending at `m` and its digits at `e`.
   */
  predicate ItemShape(s: string, i: int, k: int, m: int, e: int) {
    && 0 <= i < k
    && OccursAt(s, EXTERIOR_OPEN, k)
    && k + |EXTERIOR_OPEN| < m
    && OccursAt(s, EXTERIOR_CLOSE, m)
    && m + |EXTERIOR_CLOSE| < e <= |s|
    && AllIn(s, i, k, IsNameChar)
    && AllIn(s, k + |EXTERIOR_OPEN|, m, IsExteriorChar)
    && AllIn(s, m + |EXTERIOR_CLOSE|, e, IsAsciiDigit)
  }

  /**
   * The item pattern tried at `i`: the kind run must end in the space of ` (`,
   * and the exterior run must be followed by `) #`.
   */
  function ItemAt(s: string, i: nat): (r: Option<ItemCaps>)
    ensures r.Some? ==> r.value.id != [] && AllAsciiDigits(r.value.id)
  {
    if i > |s| then None
    else
      var j := RunEnd(s, i, IsNameChar);
      if j >= i + 2 && OccursAt(s, EXTERIOR_OPEN, j - 1) then
        var a := j - 1 + |EXTERIOR_OPEN|;
        var m := RunEnd(s, a, IsExteriorChar);
        if m > a && OccursAt(s, EXTERIOR_CLOSE, m) then
          match DigitsAt(s, m + |EXTERIOR_CLOSE|)
          case Some(id) => Some(ItemCaps(s[i..j - 1], s[a..m], id))
          case None => None
        else None
      else None
  }

  /** In an item match kind and exterior end where the longest runs of their classes end. */
  lemma ItemShapeRuns(s: string, i: int, k: int, m: int, e: int)
    requires ItemShape(s, i, k, m, e)
    ensures RunEnd(s, i, IsNameChar) == k + 1
    ensures RunEnd(s, k + |EXTERIOR_OPEN|, IsExteriorChar) == m
  {
    OccursAtChar(s, EXTERIOR_OPEN, k, 0);
    OccursAtChar(s, EXTERIOR_OPEN, k, 1);
    RunEndUnique(s, i, k + 1, IsNameChar);
    OccursAtChar(s, EXTERIOR_CLOSE, m, 0);
    RunEndUnique(s, k + |EXTERIOR_OPEN|, m, IsExteriorChar);
  }

  /** Where `ItemAt` succeeds the item pattern matches, and the captures are its three groups. */
  lemma ItemAtSound(s: string, i: nat)
    requires ItemAt(s, i).Some?
    ensures exists k, m, e :: ItemShape(s, i, k, m, e) && (e == |s| || !IsAsciiDigit(s[e]))
                              && ItemAt(s, i).value
                                 == ItemCaps(s[i..k], s[k + |EXTERIOR_OPEN|..m], s[m + |EXTERIOR_CLOSE|..e])
  {
    var j := RunEnd(s, i, IsNameChar);
    var a := j - 1 + |EXTERIOR_OPEN|;
    var m := RunEnd(s, a, IsExteriorChar);
    var d := m + |EXTERIOR_CLOSE|;
    var e := RunEnd(s, d, IsAsciiDigit);
    ItemAtRuns(s, i, j, m, e);
    ShapeFromRuns(s, i, j, m, e);
    ShapeWitness(s, i, j - 1, m, e, ItemAt(s, i).value);
  }

  /** What a successful `ItemAt` measured: its runs, the literals between them, and the captures they give. */
  lemma ItemAtRuns(s: string, i: nat, j: nat, m: nat, e: nat)
    requires ItemAt(s, i).Some?
    requires j == RunEnd(s, i, IsNameChar)
    requires m == RunEnd(s, j - 1 + |EXTERIOR_OPEN|, IsExteriorChar)
    requires e == RunEnd(s, m + |EXTERIOR_CLOSE|, IsAsciiDigit)
    ensures i <= |s| && j >= i + 2 && OccursAt(s, EXTERIOR_OPEN, j - 1)
    ensures j - 1 + |EXTERIOR_OPEN| < m && OccursAt(s, EXTERIOR_CLOSE, m)
    ensures m + |EXTERIOR_CLOSE| < |s| && IsAsciiDigit(s[m + |EXTERIOR_CLOSE|])
    ensures ItemAt(s, i).value == ItemCaps(s[i..j - 1], s[j - 1 + |EXTERIOR_OPEN|..m], s[m + |EXTERIOR_CLOSE|..e])
  {
  }

  /** One instance of the item shape, with its captures, witnesses the pattern. */
  lemma ShapeWitness(s: string, i: nat, k: int, m: int, e: int, v: ItemCaps)
    requires ItemShape(s, i, k, m, e) && (e == |s| || !IsAsciiDigit(s[e]))
    requires v == ItemCaps(s[i..k], s[k + |EXTERIOR_OPEN|..m], s[m + |EXTERIOR_CLOSE|..e])
    ensures exists k, m, e :: ItemShape(s, i, k, m, e) && (e == |s| || !IsAsciiDigit(s[e]))
                              && v == ItemCaps(s[i..k], s[k + |EXTERIOR_OPEN|..m], s[m + |EXTERIOR_CLOSE|..e])
  {
  }

  /** The runs `ItemAt` measures form an instance of the item shape whenever the literals sit between them. */
  lemma ShapeFromRuns(s: string, i: nat, j: nat, m: nat, e: nat)
    requires i <= |s| && j == RunEnd(s, i, IsNameChar) && j >= i + 2 && OccursAt(s, EXTERIOR_OPEN, j - 1)
    requires j - 1 + |EXTERIOR_OPEN| < m && m == RunEnd(s, j - 1 + |EXTERIOR_OPEN|, IsExteriorChar)
    requires OccursAt(s, EXTERIOR_CLOSE, m)
    requires m + |EXTERIOR_CLOSE| < |s| && IsAsciiDigit(s[m + |EXTERIOR_CLOSE|])
    requires e == RunEnd(s, m + |EXTERIOR_CLOSE|, IsAsciiDigit)
    ensures ItemShape(s, i, j - 1, m, e) && (e == |s| || !IsAsciiDigit(s[e]))
  {
    assert AllIn(s, i, j - 1, IsNameChar);
  }

  /** Wherever the item pattern matches, `ItemAt` succeeds. */
  lemma ItemAtComplete(s: string, i: nat, k: int, m: int, e: int)
    requires ItemShape(s, i, k, m, e)
    ensures ItemAt(s, i).Some?
  {
    ItemShapeRuns(s, i, k, m, e);
    var d := m + |EXTERIOR_CLOSE|;
    assert IsAsciiDigit(s[d]);
  }

  /** Where the item pattern matches with a maximal digit run, `ItemAt` captures its three groups. */
  lemma ItemAtCaptures(s: string, i: nat, k: int, m: int, e: int)
    requires ItemShape(s, i, k, m, e) && (e == |s| || !IsAsciiDigit(s[e]))
    ensures ItemAt(s, i) == Some(ItemCaps(s[i..k], s[k + |EXTERIOR_OPEN|..m], s[m + |EXTERIOR_CLOSE|..e]))
  {
    ItemShapeRuns(s, i, k, m, e);
    DigitsAtRun(s, m + |EXTERIOR_CLOSE|, e);
    ItemAtFromRuns(s, i, k, m, s[m + |EXTERIOR_CLOSE|..e]);
  }

  /** `ItemAt` read off the ends of its two runs and the digits after `) #`. */
  lemma ItemAtFromRuns(s: string, i: nat, k: int, m: int, id: string)
    requires i < k && i <= |s| && RunEnd(s, i, IsNameChar) == k + 1 && OccursAt(s, EXTERIOR_OPEN, k)
    requires k + |EXTERIOR_OPEN| < m && RunEnd(s, k + |EXTERIOR_OPEN|, IsExteriorChar) == m
    requires OccursAt(s, EXTERIOR_CLOSE, m) && DigitsAt(s, m + |EXTERIOR_CLOSE|) == Some(id)
    ensures ItemAt(s, i) == Some(ItemCaps(s[i..k], s[k + |EXTERIOR_OPEN|..m], id))
  {
  }

  /**
   * `ItemAt` succeeds exactly where the item pattern matches; its captures
   * are the kind, the exterior text between the parentheses and the whole
   * digit run.
   */
  lemma ItemAtMeaning(s: string, i: nat)
    ensures ItemAt(s, i).Some? <==> exists k, m, e :: ItemShape(s, i, k, m, e)
    ensures ItemAt(s, i).Some? ==>
              exists k, m, e :: ItemShape(s, i, k, m, e) && (e == |s| || !IsAsciiDigit(s[e]))
                                && ItemAt(s, i).value
                                   == ItemCaps(s[i..k], s[k + |EXTERIOR_OPEN|..m], s[m + |EXTERIOR_CLOSE|..e])
  {
    if ItemAt(s, i).Some? {
      ItemAtSound(s, i);
    }
    forall k, m, e | ItemShape(s, i, k, m, e) ensures ItemAt(s, i).Some? {
      ItemAtComplete(s, i, k, m, e);
    }
  }

  // ---- The price pattern `販売価格: ([0-9,]+)円 *` ----

  /** The price pattern matches at `i` with its digits-and-commas ending at `m`. */
  predicate PriceShape(s: string, i: int, m: int) {
    && 0 <= i
    && OccursAt(s, PRICE_LABEL, i)
    && i + |PRICE_LABEL| < m
    && OccursAt(s, YEN, m)
    && AllIn(s, i + |PRICE_LABEL|, m, IsPriceChar)
  }

  /** The digits and commas the price pattern captures at `i`; the trailing ` *` always matches. */
  function PriceAt(s: string, i: nat): (r: Option<string>)
    ensures r.Some? ==> r.value != [] && forall n :: 0 <= n < |r.value| ==> IsPriceChar(r.value[n])
  {
    if OccursAt(s, PRICE_LABEL, i) then
      var a := i + |PRICE_LABEL|;
      var m := RunEnd(s, a, IsPriceChar);
      if m > a && OccursAt(s, YEN, m) then Some(s[a..m]) else None
    else None
  }

  /** `PriceAt` succeeds exactly where the price pattern matches, capturing the whole run before `円`. */
  lemma PriceAtMeaning(s: string, i: nat)
    ensures PriceAt(s, i).Some? <==> exists m :: PriceShape(s, i, m)
    ensures PriceAt(s, i).Some? ==> exists m :: PriceShape(s, i, m) && PriceAt(s, i).value == s[i + |PRICE_LABEL|..m]
  {
    if PriceAt(s, i).Some? {
      var m := RunEnd(s, i + |PRICE_LABEL|, IsPriceChar);
      assert PriceShape(s, i, m);
    }
    forall m | PriceShape(s, i, m) ensures PriceAt(s, i).Some? {
      OccursAtChar(s, YEN, m, 0);
      RunEndUnique(s, i + |PRICE_LABEL|, m, IsPriceChar);
    }
  }

  // ---- Leftmost search ----

  /** The leftmost start index at or after `i` where `at` matches. */
  function Leftmost<C>(s: string, at: (string, nat) -> Option<C>, i: nat): (p: Option<nat>)
    requires i <= |s|
    ensures p.Some? ==> i <= p.value <= |s| && at(s, p.value).Some?
    ensures forall q :: i <= q <= |s| && (p.None? || q < p.value) ==> at(s, q).None?
    decreases |s| - i
  {
    if at(s, i).Some? then Some(i)
    else if i == |s| then None
    else Leftmost(s, at, i + 1)
  }

  /** `Regex::captures`: the captures of the leftmost match, if there is one. */
  function Captures<C>(s: string, at: (string, nat) -> Option<C>): (r: Option<C>)
    ensures r.None? <==> forall q :: 0 <= q <= |s| ==> at(s, q).None?
    ensures r.Some? ==> exists p :: 0 <= p <= |s| && at(s, p) == r && forall q :: 0 <= q < p ==> at(s, q).None?
  {
    match Leftmost(s, at, 0)
    case None => None
    case Some(p) => at(s, p)
  }

  /** A match at the very start of the text is the one `captures` reports. */
  lemma CapturesAtStart<C>(s: string, at: (string, nat) -> Option<C>)
    requires at(s, 0).Some?
    ensures Captures(s, at) == at(s, 0)
  {
  }
}
