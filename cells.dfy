/** The description and price cells of a table row (main.js:68, 100). */
module Cells {
  import opened Wrappers
  import opened Paging

  const NO_DESCRIPTION: string := "Không có mô tả"
  const NO_PRICE: string := "N/A"
  /** How many characters of a description the cell keeps. */
  const DESCRIPTION_LIMIT: nat := 100

  /** A description that is present and not the empty string. */
  predicate HasText(d: Option<string>) {
    d.Some? && d.value != ""
  }

  /** The description cell: the first hundred characters of a non-empty
      description followed by "...", whatever its length; the placeholder
      text otherwise. */
  function DescriptionCell(d: Option<string>): (r: string)
    ensures HasText(d) ==> |r| == Min(DESCRIPTION_LIMIT, |d.value|) + 3
    ensures HasText(d) ==> r[..|r| - 3] == d.value[..|r| - 3] && r[|r| - 3..] == "..."
    ensures r == NO_DESCRIPTION <==> !HasText(d)
  {
    if HasText(d) then
      var r := d.value[..Min(DESCRIPTION_LIMIT, |d.value|)] + "...";
      assert r[|r| - 1] == '.' != NO_DESCRIPTION[|NO_DESCRIPTION| - 1];
      r
    else NO_DESCRIPTION
  }

  /** A description of at most a hundred characters is shown whole. */
  lemma ShortDescriptionKept(s: string)
    requires 0 < |s| <= DESCRIPTION_LIMIT
    ensures DescriptionCell(Some(s)) == s + "..."
  {
    var r := DescriptionCell(Some(s));
    assert r[..|s|] == s;
  }

  /** JavaScript truthiness of a price: missing and 0 are both falsy. */
  predicate PriceTruthy(price: Option<int>) {
    price.Some? && price.value != 0
  }

  /** The price cell: "$" and the two-decimal text of a truthy price, "N/A"
      for a missing or zero price. `toFixed2` is Number.prototype.toFixed(2),
      left abstract. */
  function PriceCell(price: Option<int>, toFixed2: int -> string): (r: string)
    ensures r == NO_PRICE <==> !PriceTruthy(price)
    ensures PriceTruthy(price) ==> r == "$" + toFixed2(price.value)
  {
    if PriceTruthy(price) then
      var r := "$" + toFixed2(price.value);
      assert r[0] == '$';
      r
    else NO_PRICE
  }

  /** A zero price is shown like a missing one. */
  lemma ZeroPriceIsNotAvailable(toFixed2: int -> string)
    ensures PriceCell(Some(0), toFixed2) == PriceCell(None, toFixed2) == NO_PRICE
  {
  }
}
