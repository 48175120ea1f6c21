/**
 * The extraction step of the Amazon product scraper's `get_product_details`:
 * once the page has been fetched and parsed, the text of the first
 * `span#productTitle` and of the first `span.a-price` (each possibly absent)
 * become a `{title, price}` record, or `None` when anything in the `try`
 * block raises.
 */
module Scraper {
  import opened Wrappers
  import opened PyString

  /** The dictionary the scraper returns, filled with exactly two keys. */
  datatype ProductDetails = ProductDetails(title: string, price: string) {

    /** The record as the Python dictionary it stands for. */
    function AsDict(): (d: map<string, string>)
      ensures d.Keys == {"title", "price"}
      ensures d["title"] == title && d["price"] == price
    {
      map[]["title" := title]["price" := price]
    }
  }

  /**
   * The exceptions the `try` block can raise: calling `get_text` on the
   * `None` that `find` returns for a missing element, and indexing past
   * the end of the list that `split('$')` returns.
   */
  datatype Exception = AttributeError | IndexError

  /** Has exactly one dollar sign, and it comes first. */
  predicate IsCleanPrice(p: string) {
    |p| >= 1 && p[0] == '$' && '$' !in p[1..]
  }

  /** `'$' + extracted.split('$')[1]`. */
  function CleanPrice(extracted: string): (r: Result<string, Exception>)
    ensures r.Success? <==> '$' in extracted
    ensures r.Failure? ==> r.error == IndexError
    ensures r.Success? ==> IsCleanPrice(r.value)
  {
    var parts := Split(extracted, '$');
    SplitPiecesOmitSeparator(extracted, '$');
    if |parts| < 2 then Failure(IndexError) else Success("$" + parts[1])
  }

  /**
   * Whatever precedes the first dollar sign and whatever follows the second
   * is dropped; the text between them is kept verbatim, untrimmed.
   */
  lemma CleanPriceKeepsFirstSegment(p: string, q: string, rest: string)
    requires '$' !in p && '$' !in q
    requires rest == [] || rest[0] == '$'
    ensures CleanPrice(p + "$" + q + rest) == Success("$" + q)
  {
    SplitSecondPiece(p, '$', q, rest);
  }

  /**
   * Every price text with a dollar sign is made of what precedes the first
   * one, the segment after it, and what starts at the second one; the
   * cleanup returns '$' followed by that segment.
   */
  lemma CleanPriceIsFirstSegment(s: string) returns (p: string, q: string, rest: string)
    requires '$' in s
    ensures s == p + "$" + q + rest
    ensures '$' !in p && '$' !in q
    ensures rest == [] || rest[0] == '$'
    ensures CleanPrice(s) == Success("$" + q)
  {
    p, q, rest := SplitAroundFirst(s, '$');
    CleanPriceKeepsFirstSegment(p, q, rest);
  }

  /** Cleaning an already clean price returns it unchanged. */
  lemma CleanPriceIdempotent(p: string)
    requires IsCleanPrice(p)
    ensures CleanPrice(p) == Success(p)
  {
    assert p == [] + "$" + p[1..] + [];
    CleanPriceKeepsFirstSegment([], p[1..], []);
    assert "$" + p[1..] == p;
  }

  /**
   * The body of the `try` block: look up the title, then the price, then
   * clean the price, raising at the first step that fails.
   */
  function ScrapeFields(titleText: Option<string>, priceText: Option<string>): (r: Result<ProductDetails, Exception>)
    ensures titleText.None? ==> r == Failure(AttributeError)
    ensures titleText.Some? && priceText.None? ==> r == Failure(AttributeError)
    ensures titleText.Some? && priceText.Some? && '$' !in StripWhitespace(priceText.value) ==> r == Failure(IndexError)
    ensures titleText.Some? && priceText.Some? && '$' in StripWhitespace(priceText.value) ==> r.Success?
    ensures r.Success? ==> r.value.title == StripWhitespace(titleText.value) && IsCleanPrice(r.value.price)
  {
    match titleText
    case None => Failure(AttributeError)
    case Some(titleElement) =>
      var title := StripWhitespace(titleElement);
      match priceText
      case None => Failure(AttributeError)
      case Some(priceElement) =>
        var extracted := StripWhitespace(priceElement);
        match CleanPrice(extracted)
        case Failure(e) => Failure(e)
        case Success(price) => Success(ProductDetails(title, price))
  }

  /**
   * `get_product_details` after the fetch and the parse: the record, or
   * `None` when any exception was raised while filling it.
   */
  function GetProductDetails(titleText: Option<string>, priceText: Option<string>): (r: Option<ProductDetails>)
    ensures r.Some? <==> titleText.Some? && priceText.Some? && '$' in StripWhitespace(priceText.value)
    ensures r.Some? ==> r.value.title == StripWhitespace(titleText.value)
    ensures r.Some? ==> IsCleanPrice(r.value.price)
    ensures r.Some? ==> r.value.AsDict().Keys == {"title", "price"}
  {
    match ScrapeFields(titleText, priceText)
    case Success(details) => Some(details)
    case Failure(_) => None
  }

  /**
   * Full description of a successful scrape: the title is the element text
   * stripped, the price is '$' followed by the first segment of the
   * stripped price text.
   */
  lemma GetProductDetailsSuccess(titleText: string, priceText: string, p: string, q: string, rest: string)
    requires StripWhitespace(priceText) == p + "$" + q + rest
    requires '$' !in p && '$' !in q
    requires rest == [] || rest[0] == '$'
    ensures GetProductDetails(Some(titleText), Some(priceText)) == Some(ProductDetails(StripWhitespace(titleText), "$" + q))
  {
    assert CleanPrice(StripWhitespace(priceText)) == Success("$" + q) by {
      CleanPriceKeepsFirstSegment(p, q, rest);
    }
    assert ScrapeFields(Some(titleText), Some(priceText)) == Success(ProductDetails(StripWhitespace(titleText), "$" + q));
  }

  /**
   * A struck-through second price, as in "$19.99 $24.99", is cut off, but
   * the space before it stays: the segment is not stripped again.
   */
  lemma SecondPriceKeepsSpace(first: string, second: string)
    requires '$' !in first
    ensures CleanPrice("$" + first + " $" + second) == Success("$" + first + " ")
  {
    assert "$" + first + " $" + second == [] + "$" + (first + " ") + ("$" + second);
    assert '$' !in first + " ";
    CleanPriceKeepsFirstSegment([], first + " ", "$" + second);
    assert "$" + (first + " ") == "$" + first + " ";
  }
}
