/**
 * The persisted record (`Item`), its closed `Exterior` grade with the strings
 * it is written and parsed as, the two display forms used in notification
 * titles, and the `item` table keyed by `order_id` with the update the
 * reconciler issues.
 */
module Models {
  import opened Wrappers
  import opened Text

  /** The five exterior grades. */
  datatype Exterior = FN | MW | FT | WW | BS

  /** The string each grade is displayed as and parsed from. */
  function ExteriorName(e: Exterior): string {
    match e
    case FN => "Factory New"
    case MW => "Minimal Wear"
    case FT => "Field-Tested"
    case WW => "Well-Worn"
    case BS => "Battle-Scarred"
  }

  /** `Exterior::from_str`: accepts exactly the five display strings, case and all. */
  function ParseExterior(s: string): (r: Option<Exterior>)
    ensures r.Some? ==> ExteriorName(r.value) == s
    ensures r.None? ==> forall e :: ExteriorName(e) != s
  {
    if s == "Factory New" then Some(FN)
    else if s == "Minimal Wear" then Some(MW)
    else if s == "Field-Tested" then Some(FT)
    else if s == "Well-Worn" then Some(WW)
    else if s == "Battle-Scarred" then Some(BS)
    else None
  }

  /** Display then parse gives back the grade; two grades never share a string. */
  lemma ExteriorRoundTrip(e: Exterior)
    ensures ParseExterior(ExteriorName(e)) == Some(e)
    ensures forall e' :: ExteriorName(e') == ExteriorName(e) ==> e' == e
  {
  }

  /**
   * One row of the `item` table. `kind` and `exterior` are absent for a
   * vanilla item; `orderId` is the primary key.
   */
  datatype Item = Item(
    orderId: int,
    name: string,
    kind: Option<string>,
    exterior: Option<Exterior>,
    price: int,
    hasSold: bool,
    isStattrak: bool)

  const SEPARATOR: string := " | "
  const VANILLA: string := "Vanilla"

  /** What the display forms print after the separator when there is no kind. */
  function KindLabel(it: Item): string {
    if it.kind.Some? then it.kind.value else VANILLA
  }

  /** The `Display` form, `name | kind` or `name | Vanilla`: the item in every notification title. */
  function Display(it: Item): string {
    it.name + SEPARATOR + KindLabel(it)
  }

  /**
   * The `LowerExp` form, `name | kind (Exterior)` or `name | Vanilla`. It
   * unwraps the exterior whenever there is a kind, so it demands one.
   */
  function LowerExp(it: Item): string
    requires it.kind.Some? ==> it.exterior.Some?
  {
    if it.kind.Some? then Display(it) + " (" + ExteriorName(it.exterior.value) + ")"
    else Display(it)
  }

  /**
   * The display form splits back into name and kind label when neither holds
   * a `|`; a vanilla item and an item whose kind is the text `Vanilla`
   * display alike.
   */
  lemma {:induction false} DisplaySplits(it: Item)
    requires '|' !in it.name && '|' !in KindLabel(it)
    ensures Split(Display(it), SEPARATOR) == [it.name, KindLabel(it)]
    ensures it.kind.None? ==> Display(it) == Display(it.(kind := Some(VANILLA)))
  {
    SplitInTwo(it.name, SEPARATOR, KindLabel(it));
  }

  /** The exterior form extends the display form by the grade in parentheses, and only when there is a kind. */
  lemma LowerExpExtendsDisplay(it: Item)
    requires it.kind.Some? ==> it.exterior.Some?
    ensures Display(it) <= LowerExp(it)
    ensures it.kind.None? <==> LowerExp(it) == Display(it)
    ensures it.kind.Some? ==> LowerExp(it)[|Display(it)|..] == " (" + ExteriorName(it.exterior.value) + ")"
  {
  }

  // ---- The `item` table ----

  /** The `item` table: rows by primary key. */
  type Table = map<int, Item>

  /** Every row sits under its own `order_id`. */
  predicate KeyedByOrderId(t: Table) {
    forall k :: k in t ==> t[k].orderId == k
  }

  /**
   * `diesel::update(&it).set(&it)` under `treat_none_as_null`: the row whose
   * key is `it.orderId` takes every column of `it`, absent kind and exterior
   * included; without such a row nothing changes.
   */
  function UpdateRow(t: Table, it: Item): (r: Table)
    ensures r.Keys == t.Keys
    ensures it.orderId in t ==> r[it.orderId] == it
    ensures forall k :: k in t && k != it.orderId ==> r[k] == t[k]
    ensures KeyedByOrderId(t) ==> KeyedByOrderId(r)
  {
    if it.orderId in t then t[it.orderId := it] else t
  }
}
