# Warm Wishes shelter search, modelled in Dafny

Warm Wishes is a web service for finding homeless shelters. Its backend asks a
geographic map service for the elements tagged as shelters around a point. It
normalises each raw element into a fixed `Shelter` record. A shelter search
then keeps the records that satisfy the request's optional filters:
pet-friendliness and service keywords.

This project models two things. The first is the normaliser
(`parse_shelter_data`). The second is the filter loop of the search endpoint.
Around them it models the record shapes and the Python built-ins they depend
on: `str.lower`, substring `in`, `str.join`, `str.strip`, `int()` and `str()`
of an integer.

- `wrappers.dfy` (`Wrappers`): the `Option` type. It stands for Python's
  `None` and for an exception that the caller catches.
- `text.dfy` (`Text`): ASCII lower-casing, substring search, joining and
  whitespace stripping.
- `decimal.dfy` (`Decimal`): `int()` on a string (`ParseInt`) and `str()` of an
  integer (`ShowInt`). It states which texts `int()` accepts, what `str()`
  writes, and the round trip between them.
- `subsequences.dfy` (`Subsequences`): keeping the present entries of a
  sequence of optional values, in order. The services list and the search
  result both have this shape.
- `normaliser.dfy` (`Normaliser`): the raw element, the `Shelter` record, the
  coordinate rule, the name, the address, the ten service checks, the capacity
  and `ParseShelter`.
- `search.dfy` (`Search`): the search request, the service-keyword match, the
  filters, and the search loop as a method (`SearchShelters`).

Coordinates are taken per coordinate. For an element that is not a node and
has no `center`, each of the element's own `lat` and `lon` is read, and 0 is
used only for a missing one (`backend/server.py:124-125`). `Coordinates` and
`CoordinateRule` state this rule.

Normalisation fails in the cases where the source raises. In each of them the
search loop catches the exception and skips the element:
- the element has no type or no id;
- a node lacks its own `lat` or `lon`;
- a non-node element has a `center` that lacks `lat` or `lon`.

`ParseShelter` returns `None` in exactly these cases (`WellFormed`).

## Model

| member | source | states |
|---|---|---|
| Normaliser.ParseShelter | backend/server.py:110-189 | normalisation yields a record exactly when the element is well formed: it has a type and an id, and it has the coordinates that its kind makes the code read unconditionally |
| Normaliser.Coordinates | backend/server.py:116-125 | an element with an id has coordinates exactly when it is well formed, so the coordinate reads are the only other way normalisation can raise |
| Normaliser.CoordinateRule | backend/server.py:116-125 | a node takes its own point; another element takes its centre when it has one, else each of its own coordinates, defaulting to 0 |
| Normaliser.NormalisedFields | backend/server.py:175-189 | the record's id is exactly `str()` of the element's id and reads back (`int()`) as that id; the website falls back to `contact:website` when `website` is missing or empty; pet-friendly holds iff `animal_shelter` or `pets` is "yes"; the other fields come from the tags alone |
| Normaliser.TagsNeverFail | backend/server.py:114-189 | no tag map can make normalisation fail; only the element's type, id and coordinates can |
| Normaliser.ShelterName | backend/server.py:128 | the name is `name` whenever that key is present, even when it is empty; otherwise it is `operator` if present; otherwise "Unnamed Shelter" |
| Normaliser.Address | backend/server.py:130-136 | the address is absent iff both house number and street are missing or empty; otherwise it is the non-empty parts joined by one space, in that order, and it is never empty |
| Normaliser.ServicesInTableOrder | backend/server.py:141-162 | the services list follows the fixed order of the ten checks: each entry is the label of a check that fired, the positions increase, there are at most ten entries and none is repeated |
| Normaliser.Services | backend/server.py:141-162 | the services list has at most ten entries, one per check at most |
| Normaliser.ServiceListedIffFires | backend/server.py:141-162 | a check's label is listed iff that check fires |
| Normaliser.MealsProvidedIff | backend/server.py:161-162 | "Meals provided" is listed iff `food` is "yes" or `food_service` is non-empty |
| Normaliser.HealthcareIff | backend/server.py:151-152 | "Healthcare services" is listed iff `healthcare` is non-empty, whatever its value |
| Normaliser.LabelsDistinct | backend/server.py:143-162 | no two checks carry the same label, whatever the tag values |
| Normaliser.Capacity | backend/server.py:167-169 | a missing or empty `capacity` tag leaves the capacity absent |
| Normaliser.CapacityIff | backend/server.py:167-173 | the capacity is `n` exactly when the tag is present and is whitespace, an optional sign, one or more digits (leading zeros allowed) and whitespace, standing for `n`; on any other text the `ValueError` is swallowed and the capacity is absent |
| Normaliser.HopeHouseExample | backend/server.py:110-189 | a node named Hope House (wheelchair and food "yes", capacity "40", at 40.0, -73.0, id 7) normalises to the record with id "7", services ["Wheelchair accessible", "Meals provided"], capacity 40, not pet-friendly and every other optional field absent |
| Decimal.ParsePaddedShowInt | backend/server.py:171 | `int()` reads back `str(n)` for every integer `n`, with any whitespace on either side |
| Decimal.ParseShowInt | backend/server.py:176 | the id's text `str(id)` reads back as `id` |
| Decimal.ParseRejectsForeignChar | backend/server.py:171 | `int()` fails on text with a character that is not a digit, a sign or whitespace |
| Decimal.ParseRejectsBlank | backend/server.py:169-171 | `int()` fails on text that is all whitespace |
| Decimal.ShowNat | backend/server.py:176 | the decimal text of a natural number is canonical (non-empty, all digits, a leading zero only in "0" itself), is "0" for 0, and has that number as its value |
| Decimal.ShowInt | backend/server.py:176 | `str(n)` is non-empty, starts with a minus sign exactly when `n` is negative, and the rest is the canonical digits of the magnitude of `n` |
| Decimal.CanonicalUnique | backend/server.py:176 | two canonical digit runs with the same value are the same text |
| Decimal.ShowIntUnique | backend/server.py:176 | `str(n)` is the only text with a minus sign exactly when `n` is negative followed by canonical digits worth its magnitude |
| Decimal.ParseIntIff | backend/server.py:171 | `int(s)` returns `n` exactly when `s` is whitespace, an optional `+` or `-`, one or more ASCII digits (leading zeros allowed) and whitespace, standing for `n`; every other text raises |
| Text.Lower | backend/server.py:220-221 | lower-casing keeps the length, maps each character, and leaves no upper-case letter |
| Text.LowerIdempotent | backend/server.py:220-221 | lower-casing twice is lower-casing once |
| Text.ContainsIffOccurs | backend/server.py:223 | `needle in hay` (`Contains`) holds iff the needle occurs at some position of the haystack |
| Text.LeadingSpaces | backend/server.py:171 | the count covers whitespace only and stops at the first character that is not whitespace, so `StripLeft` drops exactly the leading whitespace |
| Text.TrailingSpaces | backend/server.py:171 | the count covers whitespace only and stops at the last character that is not whitespace, so `StripRight` drops exactly the trailing whitespace |
| Text.StripSplit | backend/server.py:171 | `Strip` returns a piece of the text with only whitespace before and after it |
| Text.StripEnds | backend/server.py:171 | the stripped text neither starts nor ends with whitespace |
| Text.StripPadded | backend/server.py:171 | stripping whitespace padding returns the text in between, when that text neither starts nor ends with whitespace |
| Text.JoinPair | backend/server.py:136 | `Join` of one part gives that part; joining two parts puts the separator between them |
| Search.AnyServiceHasIff | backend/server.py:218-227 | the nested `any` over the lower-cased lists holds iff some service contains some keyword, ignoring case |
| Search.AnyRequestedInIff | backend/server.py:223 | the inner `any` holds iff some keyword occurs in the service, ignoring case |
| Search.PassesFiltersIff | backend/server.py:213-227 | a record passes exactly when it has the requested pet-friendly flag, if one is requested, and, when the keyword list is present and non-empty, some service contains some keyword, ignoring case |
| Search.SearchResult | backend/server.py:208-233 | the search returns at most one record per fetched element |
| Search.SearchShelters | backend/server.py:208-233 | the loop returns the records, in element order, of the elements that normalise and pass both filters; every returned record passes the filters |
| Search.SearchResultOrigins | backend/server.py:208-233 | every returned record passes the filters and is the normalisation of some fetched element |
| Search.NormalisedOrigins | backend/server.py:209-211 | the normalised records are those of the well-formed elements, one each, in element order |
| Search.SelectOrigins | backend/server.py:213-229 | the filter keeps a subsequence in the original order: each kept record passes, and every record that passes is kept |
| Search.PetFilterHonoured | backend/server.py:214-216 | with a pet-friendly filter, every returned record has exactly the requested flag |
| Search.ServiceFilterHonoured | backend/server.py:218-227 | with a non-empty keyword list, every returned record has a service that contains a keyword, ignoring case |
| Search.NoFiltersKeepAll | backend/server.py:214-218 | without a pet-friendly filter and without keywords, every record is kept |
| Search.WellFormedBatchKeptWhole | backend/server.py:208-233 | without filters, a batch of well-formed elements yields one record per element |
| Search.MalformedElementSkipped | backend/server.py:230-232 | a malformed element is skipped without changing the result for the other elements |
| Search.SearchResultConcat | backend/server.py:209-232 | each element is judged alone: searching a concatenated batch gives the concatenated results |
| Search.SelectIdempotent | backend/server.py:213-229 | filtering twice with the same request is filtering once |
| Search.MealsKeywordExample | backend/server.py:218-227 | the keyword "meals", as the test client sends it (backend_test.py:158), matches a record offering "Meals provided" |
| Search.EmptyKeywordNeedsSomeService | backend/server.py:218-227 | an empty keyword matches every record that lists at least one service, and no other record |
| Subsequences.PresentOrigins | backend/server.py:208-229 | appending only the present values keeps them in order, one per present entry, and drops none |

## Left out

- The fetch from the geographic service (`query_overpass_api`, including its query text and timeout) is network I/O. The search takes the fetched elements as a parameter, so `lat`, `lon` and `radius` of the request only parameterise the fetch.
- Transport errors and the HTTP 500 that wraps them are not modelled.
- The volunteer sign-up endpoint is left out: it depends on the database, on generated ids and timestamps, and on e-mail validation.
- The organisations list and the root greeting are left out: they return fixed data.
- Web framework set-up, CORS, environment loading, logging and shutdown are left out.
- Coordinates are `real` values passed through unchanged. Floating-point behaviour, and the conversion of the integer default 0 to a float, are not modelled.
- ParseInt: does not accept the underscores between digits or the non-ASCII decimal digits that Python's `int()` accepts. Sign handling follows `int()`. The whitespace skipped is what `int()` skips: ASCII whitespace below code point 127 (so not the separators U+001C to U+001F) and every `str.isspace` character above it.
- ParseInt: does not model the limit on the number of digits (4300 by default) that recent Python versions put on converting text to an integer; the limit is configurable and absent from older versions.
- ParseIntIff: holds for literals of any length, ignoring that digit limit.
- ParsePaddedShowInt: holds for integers of any size, ignoring that digit limit.
- ParseShowInt: holds for ids of any size, ignoring that digit limit.
- ShowInt: does not model the same digit limit on converting an integer to text.
- CapacityIff: a capacity literal longer than that digit limit is read as its value here, where recent Python versions raise and leave the capacity absent.
- Text.Lower: lower-cases ASCII letters only; Python's `str.lower` also maps non-ASCII letters.
- Element ids are modelled as integers, as the map service sends them. A non-integer id is not modelled.
- Tag values are modelled as strings. Other JSON types in a tag map are not modelled, nor is the record validation that they would trip.
- The `type` value is compared with "node" only. Any other value takes the centre-or-own-coordinates branch, as in the source.
