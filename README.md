# Paginator page introspection, in Dafny

This project models the page-introspection core of Paginator, the JavaScript
bridge that runs the Vivliostyle renderer inside an embedded web view and
describes the rendered pages to a native host:

- **Href demangling** (`href.dfy`). Vivliostyle rewrites an in-document link
  `#frag` into `#viv-id-` + escaped document path + `:0023` + escaped `frag`,
  escaping special code units as a colon and four hexadecimal digits.
  `demangledHref` finds the first `ehtml:0023` (the escaped `.html#`) and
  decodes the rest. Strings are sequences of UTF-16 code units, as in
  JavaScript, so a decoded escape may be any code unit, a lone surrogate
  included. The decoder `str.replace(/:[0-9a-fA-F]{4}/g, unescapeChar)`
  becomes a left-to-right recursive scan. Its partner is the renderer's
  encoder (`Encode`): decoding undoes encoding whenever the colon itself is
  escaped. Demangling undoes the renderer's whole rewrite of a link into an
  `.html` document whose escaped path does not already contain the marker.
  It does not touch links into other documents (`.xhtml`, `.htm`), whose
  escaped path has no `ehtml:0023`.
- **Rectangles** (`geometry.dfy`). The helpers the source attaches to
  `DOMRect` and `Element` are free functions and methods here: the
  dictionary representation and the relativization of client rectangles
  against the page box's bounding rectangle. The two index loops are methods
  proved against specification functions. Coordinates are reals.
- **Page extraction and bookkeeping** (`paginator.dfy`). The document is a
  value: the spread container's children, each with its page box, each page
  box with the elements `querySelectorAll("[id], [name], a[href]")` yields in
  document order. `Session` holds the mutable `currentPageIndex`.
  `ShowPage` writes it. `ElementsOfCurrentPage` is the filtering loop, proved
  equal to a specification `PageDescriptors`. Lemmas then show what that
  specification promises: no renderer anchor and no invisible element is
  described, the output is the order-preserving subsequence of kept
  elements, and an unresolvable page gives the empty sequence.
- `jsstrings.dfy` holds the string built-ins the source relies on
  (`startsWith`, `indexOf`, ASCII `toLowerCase`), and `Option` for `null`.

Two facts the model makes explicit. First, demangling twice gives the same
as demangling once exactly when the demangled href is `null`, does not start
with `#`, or contains no marker (`DemangleIdempotentIff`). A decoded fragment
can contain the marker again, and then a second demangling changes it
(`DemangleChangesAgain`, `DemangleNotIdempotentExample`). Second, the
hexadecimal value of four digits is always below 0x10000, so
`String.fromCharCode` never truncates it.

## Model

| member | source | states |
|---|---|---|
| `JSStrings.StartsWith` | Paginator.js:41 | `startsWith` holds exactly when the prefix occurs at index 0 |
| `JSStrings.IndexOf` | Paginator.js:61-62 | `indexOf` gives -1 exactly when the marker does not occur; otherwise it gives an index where it occurs, and it occurs at no smaller index |
| `JSStrings.ToLowerAscii` | Paginator.js:43 | the tag keeps its length and each code unit is lowered (ASCII letters only) |
| `JSStrings.ToLowerAsciiIdempotent` | Paginator.js:43 | lowering twice equals lowering once, and no upper-case ASCII letter remains |
| `Href.ParseHex4` | Paginator.js:76 | `parseInt` of the four digits of a match is below 0x10000, so it fits one code unit |
| `Href.FromCharCode` | Paginator.js:76 | `String.fromCharCode` keeps a value below 0x10000 and otherwise reduces it modulo 0x10000 |
| `Href.Escape` | Paginator.js:54-56 | the renderer's escape of a code unit is a colon and four hex digits, i.e. a match of the decoder's pattern |
| `Href.UnescapeChar` | Paginator.js:73-79 | a match is replaced by exactly one code unit, whose escape is the match with its digits in lower case |
| `Href.UnescapeCharOfEscape` | Paginator.js:73-76 | unescaping the escape of any code unit gives that code unit |
| `Href.Unescape` | Paginator.js:68-71 | decoding is total and never lengthens the string |
| `Href.UnescapeShrinks` | Paginator.js:69-70 | a `:hhhh` anywhere in the input makes the output strictly shorter |
| `Href.UnescapeNoEscape` | Paginator.js:69-70 | text with no `:hhhh` is copied unchanged |
| `Href.UnescapeFixedPoint` | Paginator.js:69-70 | decoding leaves a string unchanged if and only if no `:hhhh` occurs in it |
| `Href.UnescapeWithoutColon` | Paginator.js:69-70 | a string with no colon is its own decoding |
| `Href.UnescapeExample` | Paginator.js:69-70 | `:0041:0042` decodes to `AB` |
| `Href.UnescapeMalformedExample` | Paginator.js:69 | a colon not followed by four hex digits (`:00g1:12`) stays literal |
| `Href.UnescapeConcat` | Paginator.js:69-70 | when no match starts in the last four code units of the first part, decoding a concatenation decodes each part on its own |
| `Href.UnescapeMixedExample` | Paginator.js:69-70 | `:00g1:0041` decodes to `:00g1A`: the malformed run stays literal and the match after it is decoded |
| `Href.UnescapeUpperCaseExample` | Paginator.js:69-70 | `::004A` decodes to `:J`: upper-case digits are accepted and a colon before a match stays literal |
| `Href.Encode` | Paginator.js:54-56 | the renderer's encoding turns each code unit into one or five code units |
| `Href.EncodeNothingSpecial` | Paginator.js:54-56 | a string with no code unit to escape is its own encoding |
| `Href.UnescapeEncode` | Paginator.js:54-56 | decoding inverts the renderer's encoding of any string, for any set of escaped code units that includes the colon |
| `Href.EncodeNeedsColon` | Paginator.js:69-70 | if the colon were not escaped, the literal text `:0041` would not survive the round trip |
| `Href.Demangle` | Paginator.js:57-66 | `null` stays `null`; an href not starting with `#` or not containing the marker is returned unchanged; an href starting with `#` yields one starting with `#` |
| `Href.DemangleMangled` | Paginator.js:60-65 | with the first marker at index k, the result is `#` plus the decoding of everything after index k+10 |
| `Href.DemangleIdempotentWithoutMarker` | Paginator.js:58-62 | on an href without the marker, demangling twice equals demangling once |
| `Href.DemangleOfMangled` | Paginator.js:54-66 | for a link into an `.html` document whose escaped path holds no earlier marker, demangling the renderer's rewrite of `#` + fragment gives `#` + fragment back, whatever the fragment |
| `Href.DemangleMarkerFirst` | Paginator.js:57-66 | `#`, the marker and an encoded fragment demangle to `#` and the fragment |
| `Href.EncodeSpacedFragment` | Paginator.js:54-56 | escaping the colon and the space turns `x y` into `x:0020y` |
| `Href.DemangleExample` | Paginator.js:54-56 | `#viv-id-:002fdoc:002ehtml:0023x:0020y` demangles to `#x y` |
| `Href.DemangleXhtmlPassesThrough` | Paginator.js:60-62 | the rewrite of a link into `v.xhtml`, `#v:002exhtml:0023f`, has no marker and is returned unchanged |
| `Href.DemangleFixedPoint` | Paginator.js:57-66 | demangling leaves an href unchanged exactly when it is `null`, does not start with `#`, or contains no marker |
| `Href.DemangleIdempotentIff` | Paginator.js:57-66 | demangling twice equals demangling once exactly when the once-demangled href is `null`, does not start with `#`, or contains no marker |
| `Href.DemangleChangesAgain` | Paginator.js:57-66 | when the demangled href is `#` followed by a text containing the marker, a second demangling changes it |
| `Href.DemangleExposesMarker` | Paginator.js:57-66 | the first demangling of `#ehtml:0023ehtml:003a0023x` gives `#ehtml:0023x`, which carries the marker again |
| `Href.DemangleMarkerX` | Paginator.js:57-66 | `#ehtml:0023x` demangles to `#x` |
| `Href.DemangleNotIdempotentExample` | Paginator.js:57-66 | for `#ehtml:0023ehtml:003a0023x`, demangling once gives `#ehtml:0023x` and demangling again gives `#x` |
| `Geometry.DictionaryRepresentation` | Paginator.js:81-83 | the rectangle can be read back from its dictionary |
| `Geometry.DictionaryRepresentationLossless` | Paginator.js:81-83 | the dictionary of a rectangle keeps all four fields: rectangle and dictionary convert both ways without loss |
| `Geometry.DictionariesForDOMRects` | Paginator.js:85-90 | one dictionary per rectangle, in order, with the same x, y, width and height |
| `Geometry.Relative` | Paginator.js:98 | adding the parent's origin back to the relative rectangle gives the rectangle, and width and height are kept |
| `Geometry.RelativeAbsolute` | Paginator.js:98 | relativizing against a parent is undone by adding its origin back, and keeps width and height |
| `Geometry.RelativeExample` | Paginator.js:98 | a rectangle at (110, 210), 50 by 20, on a page box at (100, 200) is at (10, 10), 50 by 20 |
| `Geometry.GetRelativeClientRects` | Paginator.js:92-102 | as many rectangles as client rectangles, in order; rectangle i is client rectangle i minus the parent's origin, size unchanged |
| `Geometry.RelativeRectsInvertible` | Paginator.js:92-102 | every client rectangle is recovered from its relative rectangle and the parent's origin |
| `Paginator.PageContainerAt` | Paginator.js:128-130 | the current container exists exactly when there is a spread container and the index is in range of its children, and it is that child |
| `Paginator.PageBoxAt` | Paginator.js:132-134 | the page box resolves exactly when the spread container exists, the index is in range and that child holds a page box |
| `Paginator.DescriptorOf` | Paginator.js:43-49 | the descriptor carries the lower-cased tag, the classes, id and name, the demangled href, and one dictionary per client rectangle, in order, each reading back as that rectangle relative to the page box |
| `Paginator.KeptIff` | Paginator.js:41-48 | an element is described exactly when its id does not start with `viv-id-` and its descriptor has a rectangle |
| `Paginator.Extract` | Paginator.js:35-50 | at most one descriptor per element |
| `Paginator.KeptIndices` | Paginator.js:35-50 | at most one kept index per element |
| `Paginator.KeptIndicesComplete` | Paginator.js:35-50 | every kept element has its index among the kept indices |
| `Paginator.PageDescriptors` | Paginator.js:30-52 | nothing when the page box does not resolve; otherwise at most one descriptor per selected element, none with a renderer id or without rectangles |
| `Paginator.ExtractSound` | Paginator.js:35-50 | no descriptor has an id starting with `viv-id-` or an empty list of rectangles |
| `Paginator.ExtractIsFilteredSubsequence` | Paginator.js:35-50 | the output is, in order, the descriptors of exactly the kept elements at strictly increasing indices |
| `Paginator.SyntheticAnchorsOmitted` | Paginator.js:41-42 | an element whose id starts with `viv-id-` is never described, whatever its geometry |
| `Paginator.InvisibleElementsOmitted` | Paginator.js:47-49 | an element with no client rectangle is never described |
| `Paginator.PageDescriptorsResolution` | Paginator.js:31-32 | no spread container, an out-of-range index or a missing page box gives the empty sequence |
| `Paginator.Session.constructor` | Paginator.js:115 | the current page index starts at 0 |
| `Paginator.Session.ShowPage` | Paginator.js:117-120 | afterwards the current index is the given one, with no bounds check; it is the only member that writes it |
| `Paginator.Session.ElementsOfCurrentPage` | Paginator.js:30-52 | the result is empty when the page box does not resolve and otherwise equals the specification of the page's descriptors; no descriptor has a renderer id or no rectangles; the state is not changed |

## Left out

- `loadDocument`, the `CoreViewer` construction and `getPageSizes` (Paginator.js:12-26, 148-150): calls into the Vivliostyle library, whose source is not part of this model.
- Session.ShowPage: the call `viewer.navigateToPage("epage", index)` (Paginator.js:119) is a foreign call into the renderer and is not modelled; only the bookkeeping is.
- The `readystatechange` and `nav` listeners and the `postMessage` calls to the host (Paginator.js:104-112, 140-141): asynchronous host I/O.
- `fixMathJaxBaselines` and the `window.*` exports (Paginator.js:122-126, 145-151): global glue.
- DOM traversal and CSS selector matching: `document.querySelector`, `querySelector` and `querySelectorAll("[id], [name], a[href]")` are inputs (the `Document`, `PageContainer` and `PageBox` values). The model does not state the selection predicate on them.
- The prototype augmentation of `DOMRect` and `Element` (Paginator.js:81, 85, 92): modelled as free functions and methods.
- IEEE-754 rounding of rectangle coordinates: the subtraction is on reals.
- JSStrings.ToLowerAscii: maps only the ASCII letters A to Z, not the full Unicode case mapping of `toLowerCase`.
- Href.UnescapeChar: requires its argument to be a match of `:[0-9a-fA-F]{4}`, which is the only way the replace callback is called; its `else return str` branch is therefore never taken.
- Href.ParseHex4: models `parseInt(_, 16)` only on exactly four hexadecimal digits, the only strings it receives.
- The page index is an integer. A non-integer JavaScript number used as `children[index]` finds no child unless a child carries that number's text as its id or name (the named getter of `HTMLCollection`); such lookups are not modelled.
- Concurrency: a navigation still in progress when extraction runs is not modelled; the model reads whatever page index was last recorded.
