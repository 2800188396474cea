# Front-end logic of a street-name website

This project models, in Dafny, the three pieces of the website's front-end
scripts that compute something: two on the map page (src/script/map.ts)
and the nickname lookup used for person labels
(src/script/wikidata/nicknames.ts).

- **Map options.** At start-up the map initialization routine builds the
  options object for the MapLibre map. It picks a tile style: an explicit
  style wins; otherwise the dark theme gets the dark openfreemap style and
  any other theme gets the positron one. It then sets either a fixed centre
  and zoom, when both are given, or a rectangle to fit (`bbox`, else
  `bounds`) with 50 pixels of padding.
- **Geocode adapter.** The geocoder control has a search-provider callback,
  `forwardGeocode`. It takes the hits of a Nominatim search and builds one
  point feature per hit. Each feature sits at the midpoint of the hit's
  bbox, is labelled with the hit's `display_name`, carries the hit's
  `properties` unchanged and is tagged `"place"`. Every error is caught.
  When one is caught, the callback returns the features built before the
  error.
- **Nickname resolver.** Given the `nicknames` field of a person record and
  a language code, it returns the nickname stored under exactly that code,
  or null. The record type declares the codes de, en, fr and nl, but
  `lang` may be any string.

Files:
- `wrappers.dfy`: `Option`, an absent value (an `undefined` input, a `null`
  result, or an options field never assigned).
- `map_options.dfy`: module `MapSetup`, the options construction. It is a
  method, because the source builds the object by conditional field
  assignment.
- `geocode.dfy`: module `Geocode`. The centre and the feature literal are
  functions. The callback is a method with a `while` loop over the hits,
  proved against the specification function `ShapeAll`, and lemmas state
  what `ShapeAll` guarantees.
- `nicknames.dfy`: module `Nicknames`, the lookup as one total function
  plus lemmas.

The network request and the JSON parsing are inputs. The callback receives
their outcome as a `Geocode.Response`: a network error, a parse error, or a
parsed body whose `features` list may be missing. Coordinates are `real`.

## Model

| member | source | states |
|---|---|---|
| `MapSetup.BuildOptions` | src/script/map.ts:17-29 | container is "map" and hash is on. The style is the explicit one if given; otherwise the dark URL exactly when the theme is "dark", else the positron URL. Centre and zoom are set exactly when both are given, and then to those values. Fit options are set exactly when centre is not, so the two branches never both apply. In the fit branch the padding is 50 and the bounds are `bbox` if given, else `bounds`. |
| `Geocode.Center` | src/script/map.ts:52-55 | the result is the componentwise midpoint `(min + max) / 2` of the bbox, and it lies inside the bbox when the bbox is ordered |
| `Geocode.ToPlace` | src/script/map.ts:56-64 | the feature has type "Feature", a "Point" geometry whose coordinates equal its centre, and place type exactly ["place"]. Its centre is the bbox midpoint. Place name and text equal `display_name`, and properties are the hit's properties unchanged. |
| `Geocode.ShapeAll` | src/script/map.ts:51-66 | the output is never longer than the list of hits |
| `Geocode.ForwardGeocode` | src/script/map.ts:45-74 | the loop returns exactly `Shaped(resp)`, the transformed prefix up to the first hit that is not `WellFormed` (its `bbox` or `properties` read throws, lines 53 and 59). `logged` holds exactly when `Fails(resp)`: the request fails, the body does not parse, `features` is missing (the for…of at line 51 throws), or some hit is malformed; these are the paths into the catch at line 67. In the first three cases it returns no features. It always returns. |
| `Geocode.ShapeAllAt` | src/script/map.ts:51-65 | output k comes from input hit k, in input order, and that hit was well formed |
| `Geocode.ShapedFeaturesArePoints` | src/script/map.ts:52-64 | every returned feature is a point at the centre of its own hit's bbox, labelled by and carrying that hit's properties |
| `Geocode.AllWellFormedKeepsLength` | src/script/map.ts:51-65 | if every hit is well formed, there is one feature per hit |
| `Geocode.FirstMalformedCuts` | src/script/map.ts:46-68 | if hit k is the first malformed one, the output has exactly k features, those of hits 0..k-1 |
| `Geocode.IgnoresAfterMalformed` | src/script/map.ts:51-68 | hits after a malformed one do not affect the output, whatever they are |
| `Geocode.ShortExactlyOnMalformed` | src/script/map.ts:51-68 | the output is shorter than the input exactly when some hit is malformed, and the first hit left out is malformed |
| `Geocode.CenterExample` | src/script/map.ts:52-55 | the bbox [10, 20, 30, 40] has centre [20, 30] |
| `Nicknames.Nickname` | src/script/wikidata/nicknames.ts:3-25 | a nickname is returned exactly when the mapping is defined and `lang` is one of its keys, and it is that entry's value. The early return for a missing, null or empty mapping never changes the answer. |
| `Nicknames.NoMappingNoNickname` | src/script/wikidata/nicknames.ts:14-19 | an undefined, null or empty mapping gives null for every language |
| `Nicknames.PresentKeyGivesValue` | src/script/wikidata/nicknames.ts:22-23 | a present key gives its entry's value |
| `Nicknames.AbsentKeyGivesNull` | src/script/wikidata/nicknames.ts:22-24 | an absent key gives null |
| `Nicknames.UndeclaredLanguageGivesNull` | src/script/wikidata/nicknames.ts:4-24 | with keys among de/en/fr/nl, any other language gives null |
| `Nicknames.LanguageFieldIgnored` | src/script/wikidata/nicknames.ts:23 | mappings with equal keys and values give equal answers, whatever their entries' `language` fields say |
| `Nicknames.MismatchedLanguageStillReturned` | src/script/wikidata/nicknames.ts:23 | under "en", an entry whose language is "fr" is still returned |
| `Nicknames.NoCaseFolding` | src/script/wikidata/nicknames.ts:22 | "EN" does not find the "en" entry |
| `Nicknames.EnglishOnlyRecord` | src/script/wikidata/nicknames.ts:14-24 | with only an "en" entry "Al", "en" gives "Al" and "fr" gives null |

The nickname resolver's determinism and lack of side effects need no
lemma. `Nickname` is a Dafny function, so equal arguments give equal
results by construction.

## Left out

- Request URL construction (src/script/map.ts:48). It only interpolates a
  string into an external endpoint. The query is spliced in without
  URL-encoding.
- `fetch` and `response.json()` (src/script/map.ts:49-50). They are
  network I/O and asynchronous waits. Their outcome is the input
  `Geocode.Response`.
- The `console.error` message (src/script/map.ts:68). The model only
  reports, through `logged`, that a failure happened.
- The MapLibre objects (src/script/map.ts:32-44, 75-81, 83-97): the map
  instance and its teardown, the navigation, scale and geocoder controls,
  the geocoder's own options, the event handlers, the layer adders and the
  DOM class change. These are foreign library and UI calls.
- The module-level `map` handle (src/script/map.ts:14, 32-35). It only
  manages the library object's lifecycle.
- IEEE-754 rounding. Coordinates are `real`.
- A bbox with fewer than four numbers makes NaN in JavaScript and no
  exception. The model's bbox always has four numbers.
- Hits that fail in other ways are not modelled. For example, a hit that is
  itself null, a non-array `bbox`, or a `features` value that is iterable
  but not an array.
- In the source, a feature's `center` and `geometry.coordinates` are the
  same array object, and `properties` is the hit's own object. The model
  compares values and does not capture this aliasing.
- `MapSetup.BuildOptions`: `typeof x !== 'undefined'` is true for a `null`
  value. A `null` style would be passed to the map, and a `null` centre or
  zoom would take the centre branch and be assigned. The model's style,
  centre and zoom are only given or undefined. The `bbox || bounds` choice is modelled on
  given/undefined values. A JavaScript array is always truthy, so no other
  case arises.
- `Nicknames.Nickname`: the mapping is modelled as its own keys only.
  JavaScript property lookup also reaches inherited members, so a `lang`
  such as "toString" on a non-empty mapping yields `undefined` rather than
  null. A key bound explicitly to `undefined` (which gives null) is not
  modelled. A key bound to `null` makes the source throw at `.value`
  (src/script/wikidata/nicknames.ts:23), the lookup's only failure; the
  model's entries are never null, so it does not capture that throw.
