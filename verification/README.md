# Amazon product scraper: extraction step

This project models, in Dafny, the part of `get_product_details` in
`scraper.py` that turns a fetched product page into a product record. The
HTTP request and the HTML parse are taken as given. The page is represented
by two optional strings: the text of the first `span` with id
`productTitle`, and the text of the first `span` with class `a-price`. An
absent element is `None`.

The model has three modules:

- `Wrappers`: `Option` (Python's `None` versus a value) and `Result` (a value
  or a raised exception).
- `PyString`: the Python string methods the scraper uses. `Strip(s, chars)`
  is `str.strip(chars)`: a scan from the left (`StripStart`) and one from
  the right (`StripEnd`), as CPython implements it. `StripWhitespace` is
  `str.strip()` with no argument, over the fixed set `Whitespace`. `Split`
  is `str.split(sep)` with a one-character separator, built on `IndexOf`.
  `Join` is its inverse.
- `Scraper`: the `ProductDetails` record (the two-key dictionary),
  `CleanPrice` (`'$' + extracted_price.split('$')[1]`), `ScrapeFields` (the
  body of the `try` block, raising `AttributeError` or `IndexError`) and
  `GetProductDetails` (the `except` clause turning any exception into
  `None`).

Two details of the source that the model keeps:

- The price cleanup keeps everything between the first and the second
  `'$'`, or up to the end of the text, including spaces and non-digits:
  `"$19.99 $24.99"` gives `"$19.99 "`.
- The comment on the `except` clause (scraper.py:58-59) mentions network
  issues. The request at scraper.py:34 is outside the `try`, so a transport
  failure propagates instead of producing `None`. The model does not claim
  that fetch failures become `None`.

## Model

| member | source | states |
|---|---|---|
| `PyString.StripStart` | scraper.py:42 | the left scan of `strip` stops at the first character not in the strip set, and every character it passes is in the set |
| `PyString.StripEnd` | scraper.py:42 | the right scan of `strip` stops after the last character not in the strip set, and every character it passes is in the set |
| `PyString.Strip` | scraper.py:42 | `strip(chars)` returns a string no longer than its input with neither end in `chars`; `StripBounds` and `StripPadded` characterise the result completely |
| `PyString.StripWhitespace` | scraper.py:46 | `strip()` returns a string no longer than its input with no white space at either end; it is `Strip` over `Whitespace`, so `StripBounds` and `StripPadded` characterise it |
| `PyString.StripBounds` | scraper.py:42 | the stripped text is a piece `s[i..j]` of the input with only strip characters before and after it, and neither of its ends is a strip character |
| `PyString.StripPadded` | scraper.py:46 | a core whose ends are not strip characters, padded on either side with strip characters, strips back to exactly that core; the converse of `StripBounds` |
| `PyString.StripIdempotent` | scraper.py:46 | stripping twice equals stripping once |
| `PyString.IndexOf` | scraper.py:49 | the first position of a character that occurs in the string |
| `PyString.Split` | scraper.py:49 | `split` always yields at least one piece |
| `PyString.SplitPiecesOmitSeparator` | scraper.py:49 | no piece of a split contains the separator |
| `PyString.SplitAroundFirst` | scraper.py:49 | any text holding the separator is the part before the first separator, the segment up to the second separator or the end, and the rest starting at the second separator |
| `PyString.SplitSecondPiece` | scraper.py:49 | for such a text, `split(sep)` has at least two pieces and the piece at index 1 is exactly that segment |
| `PyString.SplitCount` | scraper.py:49 | `split` yields exactly one more piece than there are separators, so `[1]` exists iff the separator occurs |
| `PyString.JoinSplit` | scraper.py:49 | joining the pieces of a split with the separator restores the text |
| `PyString.SplitJoin` | scraper.py:49 | splitting a join of separator-free pieces gives back those pieces |
| `Scraper.ProductDetails.AsDict` | scraper.py:31-56 | the returned dictionary has exactly the keys `title` and `price`, holding the record's two fields |
| `Scraper.CleanPrice` | scraper.py:49 | the cleanup succeeds iff the text contains `'$'`, otherwise raises `IndexError`; a cleaned price starts with `'$'` and has no other `'$'` |
| `Scraper.CleanPriceKeepsFirstSegment` | scraper.py:49 | for text `p + "$" + q + rest`, with no `'$'` in `p` or `q` and `rest` empty or starting with `'$'`, the result is `"$" + q` |
| `Scraper.CleanPriceIsFirstSegment` | scraper.py:49 | every price text containing `'$'` splits into a part before the first `'$'`, a `'$'`-free segment, and a rest that is empty or starts with `'$'`; the cleanup returns `'$'` followed by that segment |
| `Scraper.CleanPriceIdempotent` | scraper.py:49 | every clean price (a leading `'$'` and no other `'$'`), including every output of the cleanup, is returned unchanged by the cleanup |
| `Scraper.SecondPriceKeepsSpace` | scraper.py:46-49 | for `"$" + a + " $" + b` with no `'$'` in `a`, everything from the second `'$'` on is dropped and the space before it is kept |
| `Scraper.ScrapeFields` | scraper.py:39-56 | a missing title raises `AttributeError` whatever the price; a missing price raises `AttributeError`; a stripped price without `'$'` raises `IndexError`; when both texts are present and the stripped price has a `'$'` it succeeds; on success the title is the stripped title text and the price is clean |
| `Scraper.GetProductDetails` | scraper.py:39-62 | a record is returned iff both elements are present and the stripped price text has a `'$'`, otherwise `None`; the record's title is the stripped title text, its price is clean, and its dictionary has exactly two keys |
| `Scraper.GetProductDetailsSuccess` | scraper.py:41-56 | when the stripped price text is `p + "$" + q + rest` (as in `CleanPriceKeepsFirstSegment`), the result is exactly the record with the stripped title and price `"$" + q` |

## Left out

- The HTTP request (`requests.get`, scraper.py:34) and the browser header constant (scraper.py:12-17). These are network I/O and fixed configuration. Transport errors are raised outside the `try` and are not modelled.
- HTML parsing and element lookup (`BeautifulSoup`, `find`, `get_text`, scraper.py:37, 41-46). This is a foreign library. The model receives the text of the first matching element of each kind, or `None`.
- The error messages printed in the `except` clause (scraper.py:60-61) and the interactive `__main__` block (scraper.py:66-74). These are console I/O only.
- The text of the exception. Only its kind (`AttributeError` or `IndexError`) is kept, and `GetProductDetails` discards even that, as the source does.
- White space is a fixed set, `PyString.Whitespace`. It holds those that CPython's `str.isspace()` accepts for current Unicode data. Python's set follows the Unicode database of the interpreter's version, and the model does not track later changes.
