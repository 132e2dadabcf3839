# Portfolio page: active-section tracking, section navigation and the mail draft link

This project models the logic of the portfolio site's single page component
(`app/page.tsx`). It covers three parts.

- **Active-section tracking.** The page has five sections, in a fixed order:
  `home`, `about`, `experience`, `projects` and `contact`. Once mounted, the
  page fills its element refs from the document. An intersection observer
  then keeps the `active` section up to date, which highlights the matching
  navigation button.
  - On every notification batch, each intersecting entry writes its
    section's id, and the last write wins.
  - A fallback then computes the section nearest the reading position, i.e.
    the one whose top edge is closest to `headerHeight + 24`. A section whose
    ref holds no element is infinitely far. The list is stably sorted by
    distance, so ties go to the section listed first. The fallback writes the
    nearest section if it differs from the `active` value the callback closed
    over.
  - The effect that creates the observer runs once, so that value is always
    the initial `"home"`.
- **Section navigation.** `handleNav` scrolls to `rectTop + scrollY -
  headerHeight - 12`. The header height is 0 when there is no header
  element. Nothing happens when the target section is missing.
- **The contact form's mail draft link.** It is a `mailto:` URI (section 2
  of RFC 6068). Its `subject` and `body` are templated from the name, email
  and message fields and encoded with `encodeURIComponent`: each character
  outside `A-Z a-z 0-9 - _ . ! ~ * ' ( )` is turned into its UTF-8 octets
  (RFC 3629), each written as `%XY` (section 2.1 of RFC 3986). The model
  adds the matching reader: it splits the query on `&` and `=`, then
  percent-decodes and strictly UTF-8-decodes each part. It proves that the
  link reads back as exactly the recipient and the two templated texts,
  whatever the fields contain.

Modules:
- `Wrappers`: `Option`.
- `Sections`: section ids, `SECTIONS`, element ids, header height, and the
  `Refs` class holding the mount effect's loop.
- `Nearest`: distances, the comparator, the stable sort, the reference
  argmin and the fallback candidate.
- `Tracker`: the batch semantics and the `SectionTracker` class whose
  `ApplyBatch` method runs the callback's loop.
- `Navigation`: `ScrollTarget`.
- `Utf8`, `PercentEncoding`, `Mailto`: the mail draft link.

DOM reads are parameters of the model. These are `getElementById`, modelled
as the set of element ids present in the document; `getBoundingClientRect().top`,
modelled as a function from section to top edge; `offsetHeight` and
`window.scrollY`. Pixel values are integers.

The fallback at `app/page.tsx:127` compares the nearest section with the
`active` value the effect closed over, not with the current state. The
effect runs once (its only dependency is the memoised refs, and the
exhaustive-deps lint is disabled at `app/page.tsx:142-143`), so that value
is always the initial `"home"` (`app/page.tsx:72`). When `home` is nearest,
the fallback therefore never writes it: `Tracker.StaleCaptureKeepsIntersecting`
shows `home` nearest while an intersecting `about` stays active.

## Model

| member | source | states |
|---|---|---|
| Sections.Name | app/page.tsx:21-28 | each section's element id is its non-empty `SectionId` string, never the header's id; `NamesDistinct` proves the ids pairwise different |
| Sections.Index | app/page.tsx:21-28 | every section has a position in `SECTIONS`, and that position holds the section |
| Sections.IndexOfPosition | app/page.tsx:22-28 | each position of `SECTIONS` holds the section whose index it is, so no section is listed twice |
| Sections.NamesDistinct | app/page.tsx:21-28 | two sections have the same element id exactly when they are the same section, and no section uses the header's id |
| Sections.HeaderHeight | app/page.tsx:102 | the header height is the header element's `offsetHeight`, or 0 when the header ref is null (`?? 0`) |
| Sections.Refs.constructor | app/page.tsx:73-86 | every section ref and the header ref start out null |
| Sections.Refs.Attach | app/page.tsx:89-98 | after the mount loop, a section's ref holds an element exactly when the document has an element with the section's id, and the header ref holds one exactly when `site-header` exists |
| Nearest.DistanceOf | app/page.tsx:117-123 | an unresolved anchor is infinitely far; a resolved one is `abs(top - (headerHeight + 24))` away |
| Nearest.Compare | app/page.tsx:124 | the comparator `a.d - b.d` has sign -1, 0 or 1: for two finite distances negative exactly when the first is smaller and zero exactly when they are equal; finite before infinite; two infinite distances (NaN) compare equal |
| Nearest.AtMostTotalPreorder | app/page.tsx:124 | "at most as far" is total and transitive, as a consistent comparator for `sort` must be |
| Nearest.Distances | app/page.tsx:117-123 | the distance map keeps `SECTIONS` order and pairs each id with its distance |
| Nearest.Insert | app/page.tsx:124 | inserting adds exactly the one element (multiset) |
| Nearest.SortByDistance | app/page.tsx:124 | the sort is a permutation of the distance list |
| Nearest.InsertSorted | app/page.tsx:124 | inserting into an ordered list keeps it ordered |
| Nearest.SortByDistanceSorted | app/page.tsx:124 | the sorted list is ordered by ascending distance |
| Nearest.FirstMinimum | app/page.tsx:117-126 | the reference argmin: an entry no farther than any other, with every earlier entry strictly farther |
| Nearest.SortHeadIsFirstMinimum | app/page.tsx:124-126 | `distances[0]` after the stable sort is exactly the first entry of minimal distance |
| Nearest.AnchorTops | app/page.tsx:118-120 | a section's top is known exactly when its ref holds an element, and it is that element's `rect.top` |
| Nearest.FallbackCandidate | app/page.tsx:125-126 | with five sections `distances[0]` always exists, so there is always a candidate |
| Nearest.FallbackIsNearest | app/page.tsx:117-126 | the candidate is `w` if and only if no section is nearer than `w` and every section listed before `w` is strictly farther |
| Nearest.FallbackIsMinimal | app/page.tsx:117-126 | the candidate's distance is minimal over all five sections |
| Nearest.FallbackTieGoesToEarlier | app/page.tsx:124-126 | on equal distances the section listed later in `SECTIONS` is not the candidate |
| Nearest.FallbackIsResolved | app/page.tsx:119-126 | while some anchor is resolved, the candidate's anchor is resolved |
| Nearest.FallbackWithoutAnchors | app/page.tsx:119-126 | with no anchor resolved the candidate is `home` |
| Tracker.LastIntersecting | app/page.tsx:106-114 | the batch writes nothing exactly when no entry intersects; otherwise the value left is the target of an intersecting entry after which none intersects |
| Tracker.Settle | app/page.tsx:125-128 | the fallback replaces the written value exactly when the candidate differs from the captured `active` |
| Tracker.AfterBatch | app/page.tsx:105-128 | after a batch `active` is the prior value, the fallback candidate, or the target of an intersecting entry of the batch; `AfterBatchWithInitialCapture` pins down which |
| Tracker.AfterBatchWithInitialCapture | app/page.tsx:105-143 | with the captured `"home"`: after a batch, `active` is the nearest section if that is not `home`; else the last intersecting entry's target; else unchanged |
| Tracker.AfterBatchStaysOnPage | app/page.tsx:106-127 | if `active` is `home` or an observed section and entries report only on observed sections, the same holds after the batch |
| Tracker.NoAnchorsKeepsActive | app/page.tsx:117-128 | with no section element on the page, a batch leaves `active` unchanged |
| Tracker.StaleCaptureKeepsIntersecting | app/page.tsx:127 | the comparison is with the captured `"home"`: with `home` nearest and `about` intersecting, `about` stays active |
| Tracker.SectionTracker.constructor | app/page.tsx:72-140 | `active` starts as `home`; the callback captures `home`; the header height is read once from the header ref (0 when it is null); exactly the sections whose refs the mount effect filled are observed |
| Tracker.SectionTracker.ApplyBatch | app/page.tsx:105-129 | one batch: the `forEach` loop then the fallback leave `active` equal to the batch semantics above, keep it on the page, and leave the nearest section if that is not `home`, else the last intersecting target, else the prior value |
| Navigation.ScrollTarget | app/page.tsx:145-156 | nothing scrolls exactly when the target element is missing; otherwise the target offset is `header height + 12` above the element's document position |
| Navigation.ScrollWithoutHeader | app/page.tsx:149-154 | without a header element the offset is `rectTop + scrollY - 12` |
| Navigation.ScrollTargetIdempotent | app/page.tsx:150-155 | once the scroll has arrived, navigating to the same section targets the same offset |
| Utf8.EncodeChar | app/page.tsx:661-664 | a scalar value is one to four octets, one exactly for ASCII, with continuation octets after the first |
| Utf8.DecodeEncode | app/page.tsx:661-664 | strict UTF-8 decoding of a string's UTF-8 form gives the string back |
| Utf8.EncodeDecode | app/page.tsx:661-664 | whatever the strict decoder accepts is exactly the UTF-8 form of its result |
| PercentEncoding.HexDigit | app/page.tsx:661-664 | escapes use upper-case hexadecimal digits that read back as the nibble |
| PercentEncoding.EscapeOctets | app/page.tsx:661-664 | each octet becomes a three-character `%XY` of unescaped characters and `%` |
| PercentEncoding.EncodeURIComponent | app/page.tsx:661-664 | the encoding holds only unescaped-set characters and `%`, so no `&`, `=`, `?`, `#`, space or newline |
| PercentEncoding.PercentDecodeEncode | app/page.tsx:661-664 | percent-decoding an encoding gives exactly the UTF-8 octets of the text |
| PercentEncoding.DecodeEncode | app/page.tsx:661-664 | decoding an encoded component gives back exactly the original text |
| PercentEncoding.EncodeInjective | app/page.tsx:661-664 | different texts have different encodings |
| PercentEncoding.EncodeUnescaped | app/page.tsx:661-664 | text made only of unescaped characters is its own encoding |
| PercentEncoding.DecodePlain | app/page.tsx:665 | ASCII text without `%` decodes to itself |
| PercentEncoding.EncodeConcat | app/page.tsx:661-664 | the encoding of a concatenation is the concatenation of the encodings |
| PercentEncoding.EncodeEmDash | app/page.tsx:664 | the signature's em dash U+2014 is encoded as `%E2%80%94` |
| Mailto.Subject | app/page.tsx:661-663 | the subject is `Portfolio inquiry from ` followed by the name, or by `your website` when the name is empty |
| Mailto.Body | app/page.tsx:664 | the body starts with the message, then a blank line and `— `, then the name, and ends with `)`; its length is the three fields' plus 7 |
| Mailto.MailtoUri | app/page.tsx:660-666 | the link is all ASCII |
| Mailto.MailtoUriTemplate | app/page.tsx:661-665 | the link is `mailto:you@example.com?subject=` + encoded subject + `&body=` + encoded body |
| Mailto.JoinSplit | app/page.tsx:665 | joining the pieces of a split gives the string back |
| Mailto.SplitJoin | app/page.tsx:665 | splitting pieces joined by a separator none contains gives exactly those pieces |
| Mailto.ParseField | app/page.tsx:661-665 | a field of a plain name and an encoded value reads back as that name and value |
| Mailto.FieldDelimiters | app/page.tsx:661-665 | a field of a plain name and an encoded value contains neither `&` nor `?` |
| Mailto.SubjectAndBodyRoundTrip | app/page.tsx:665 | a link with a `subject` and a `body` field reads back as exactly those two headers, for any texts |
| Mailto.MailtoRoundTrip | app/page.tsx:660-666 | the link reads back as the recipient `you@example.com` and exactly two headers, `subject` and `body`, holding the templated texts, for every name, email and message |
| Mailto.JaneDoeDraft | app/page.tsx:661-665 | for "Jane Doe", "jane@x.com", "Hello" the draft holds the subject "Portfolio inquiry from Jane Doe" and the body "Hello", a blank line, then "— Jane Doe (jane@x.com)" |
| Mailto.EmptyFormDraft | app/page.tsx:661-665 | with every field empty the subject names "your website" and the body is a blank line, then "—  ()" |

## Left out

- JSX rendering, `SocialLinks`, the static content arrays and all styling
  (`app/page.tsx:30-69`, `158-653`): presentational only.
- `app/layout.tsx` is not part of this model: metadata and a theme wrapper,
  with no logic.
- Observer construction, thresholds, `rootMargin`, `observe` and
  `disconnect` (`app/page.tsx:104-141`) are platform services. The browser
  decides which entries a batch holds, so a batch is a parameter. The
  `rootMargin` uses an 8-pixel margin below the header (`app/page.tsx:133`),
  which differs from the 24-pixel reading offset and the 12-pixel scroll
  padding.
- DOM lookups and the smooth `window.scrollTo` animation: their results are
  parameters. Scroll clamping at the document's ends is the browser's.
  `e.preventDefault()` (`app/page.tsx:146`) is always called and has no
  modelled effect.
- `useMemo` caching and React's scheduling are not modelled.
- Tracker.SectionTracker.ApplyBatch: React's batching of `setActive` calls is
  modelled as sequential writes where the last one wins.
- Nearest.Compare: pixel distances are integers rather than floating-point
  numbers. The comparator's `Infinity - Infinity = NaN` case is modelled as
  the tie `sort` reads it as.
- Tracker.Entry: the target is a section id, because only section elements
  are observed. `entry.target.id` on any other element is not modelled.
- Nearest.SortByDistance: a stable insertion sort stands for
  `Array.prototype.sort`. Every stable sort under the same consistent
  comparator gives the same result, but the engine's own algorithm is not
  modelled.
- PercentEncoding.EncodeURIComponent: characters are Unicode scalar values.
  The `URIError` `encodeURIComponent` throws on a lone UTF-16 surrogate
  cannot arise and is not modelled.
- Mailto.ParseMailto: the reader is a model of what a mail client does with
  the link, not code from the page. It accepts only the lower-case scheme
  `mailto:` and one `?`, and it does not treat `+` as a space.
