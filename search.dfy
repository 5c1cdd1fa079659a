/**
 * The filter stage of the shelter search: every fetched element is
 * normalised in order, elements whose normalisation fails are skipped, and
 * the remaining records are kept when they pass the request's optional
 * pet-friendly and service-keyword filters.
 */
module Search {
  import opened Wrappers
  import opened Text
  import opened Normaliser
  import opened Subsequences

  /** The search request body. `lat`, `lon` and `radius` only parameterise the fetch. */
  datatype SearchRequest = SearchRequest(
    lat: real,
    lon: real,
    radius: int,
    services: Option<seq<string>>,
    petFriendly: Option<bool>)

  /** `[s.lower() for s in ss]`. */
  function LowerAll(ss: seq<string>): (r: seq<string>)
    ensures |r| == |ss|
    ensures forall i :: 0 <= i < |ss| ==> r[i] == Lower(ss[i])
  {
    if ss == [] then [] else [Lower(ss[0])] + LowerAll(ss[1..])
  }

  /** `any(req in serv for req in requested)`. */
  predicate AnyRequestedIn(serv: string, requested: seq<string>)
    decreases |requested|
  {
    requested != [] && (Contains(serv, requested[0]) || AnyRequestedIn(serv, requested[1..]))
  }

  /** `any(AnyRequestedIn(serv, requested) for serv in services)`. */
  predicate AnyServiceHas(services: seq<string>, requested: seq<string>)
    decreases |services|
  {
    services != [] && (AnyRequestedIn(services[0], requested) || AnyServiceHas(services[1..], requested))
  }

  /** `keyword` occurs in `service` once both are lower-cased. */
  ghost predicate MatchesIgnoringCase(service: string, keyword: string) {
    exists k :: OccursAt(Lower(service), Lower(keyword), k)
  }

  /** Some service contains some keyword, ignoring case. */
  ghost predicate OffersRequested(services: seq<string>, keywords: seq<string>) {
    exists i, j :: 0 <= i < |services| && 0 <= j < |keywords| && MatchesIgnoringCase(services[i], keywords[j])
  }

  /** The inner `any` over the lower-cased keywords finds a keyword exactly when one matches the service. */
  lemma {:induction false} AnyRequestedInIff(service: string, keywords: seq<string>)
    ensures AnyRequestedIn(Lower(service), LowerAll(keywords)) <==>
            exists j :: 0 <= j < |keywords| && MatchesIgnoringCase(service, keywords[j])
    decreases |keywords|
  {
    if keywords != [] {
      var lowered := LowerAll(keywords);
      assert lowered[1..] == LowerAll(keywords[1..]);
      AnyRequestedInIff(service, keywords[1..]);
      ContainsIffOccurs(Lower(service), Lower(keywords[0]));
      if exists j :: 0 <= j < |keywords| && MatchesIgnoringCase(service, keywords[j]) {
        var j :| 0 <= j < |keywords| && MatchesIgnoringCase(service, keywords[j]);
        if j > 0 {
          assert keywords[1..][j - 1] == keywords[j];
        }
      }
      if AnyRequestedIn(Lower(service), LowerAll(keywords[1..])) {
        var j :| 0 <= j < |keywords[1..]| && MatchesIgnoringCase(service, keywords[1..][j]);
        assert MatchesIgnoringCase(service, keywords[j + 1]);
      }
    }
  }

  /**
   * The nested `any` of the service filter, run on the lower-cased lists,
   * holds exactly when some service contains some keyword, ignoring case.
   */
  lemma {:induction false} AnyServiceHasIff(services: seq<string>, keywords: seq<string>)
    ensures AnyServiceHas(LowerAll(services), LowerAll(keywords)) <==> OffersRequested(services, keywords)
    decreases |services|
  {
    if services != [] {
      var lowered := LowerAll(services);
      assert lowered[1..] == LowerAll(services[1..]);
      AnyServiceHasIff(services[1..], keywords);
      AnyRequestedInIff(services[0], keywords);
      if OffersRequested(services, keywords) {
        var i, j :| 0 <= i < |services| && 0 <= j < |keywords| && MatchesIgnoringCase(services[i], keywords[j]);
        if i > 0 {
          assert services[1..][i - 1] == services[i];
        }
      }
      if OffersRequested(services[1..], keywords) {
        var i, j :| 0 <= i < |services[1..]| && 0 <= j < |keywords| && MatchesIgnoringCase(services[1..][i], keywords[j]);
        assert MatchesIgnoringCase(services[i + 1], keywords[j]);
      }
    }
  }

  /** The request's filters, in the order the search applies them; an absent or empty keyword list imposes nothing. */
  predicate PassesFilters(s: Shelter, req: SearchRequest) {
    && (req.petFriendly.Some? ==> s.petFriendly == req.petFriendly.value)
    && (req.services.Some? && req.services.value != [] ==>
          AnyServiceHas(LowerAll(s.services), LowerAll(req.services.value)))
  }

  /**
   * A record passes exactly when it has the requested pet-friendly flag (if
   * one is requested) and, when the keyword list is present and non-empty,
   * some service contains some keyword, ignoring case.
   */
  lemma PassesFiltersIff(s: Shelter, req: SearchRequest)
    ensures PassesFilters(s, req) <==>
      && (req.petFriendly.Some? ==> s.petFriendly == req.petFriendly.value)
      && (req.services.None? || req.services.value == [] || OffersRequested(s.services, req.services.value))
  {
    if req.services.Some? {
      AnyServiceHasIff(s.services, req.services.value);
    }
  }

  /** The normaliser's outcome for each element, in element order. */
  function ParseAll(elements: seq<Element>): (parsed: seq<Option<Shelter>>)
    ensures |parsed| == |elements|
    ensures forall j :: 0 <= j < |elements| ==> parsed[j] == ParseShelter(elements[j])
  {
    if elements == [] then []
    else ParseAll(elements[..|elements| - 1]) + [ParseShelter(elements[|elements| - 1])]
  }

  /** The records of the elements that normalise, in element order. */
  function Normalised(elements: seq<Element>): seq<Shelter> {
    Present(ParseAll(elements))
  }

  /** Each record if it passes the request's filters, nothing otherwise. */
  function Kept(shelters: seq<Shelter>, req: SearchRequest): (kept: seq<Option<Shelter>>)
    ensures |kept| == |shelters|
    ensures forall j :: 0 <= j < |shelters| ==>
              kept[j].Some? == PassesFilters(shelters[j], req) && (kept[j].Some? ==> kept[j].value == shelters[j])
  {
    if shelters == [] then []
    else
      var last := shelters[|shelters| - 1];
      Kept(shelters[..|shelters| - 1], req) + [if PassesFilters(last, req) then Some(last) else None]
  }

  /** The records that pass the request's filters, in their original order. */
  function Select(shelters: seq<Shelter>, req: SearchRequest): seq<Shelter> {
    Present(Kept(shelters, req))
  }

  /** The search result for a batch of fetched elements. */
  function SearchResult(elements: seq<Element>, req: SearchRequest): (result: seq<Shelter>)
    ensures |result| <= |elements|
  {
    PresentLength(ParseAll(elements));
    PresentLength(Kept(Normalised(elements), req));
    Select(Normalised(elements), req)
  }

  /**
   * The search loop: a record whose normalisation fails is skipped and the
   * walk goes on; the others are appended when they pass the filters.
   */
  method SearchShelters(elements: seq<Element>, req: SearchRequest) returns (shelters: seq<Shelter>)
    ensures shelters == SearchResult(elements, req)
    ensures forall k :: 0 <= k < |shelters| ==> PassesFilters(shelters[k], req)
  {
    shelters := [];
    for i := 0 to |elements|
      invariant shelters == SearchResult(elements[..i], req)
    {
      SearchResultStep(elements, i, req);
      var parsed := ParseShelter(elements[i]);
      if parsed.None? {
        continue;
      }
      var shelter := parsed.value;
      if req.petFriendly.Some? && shelter.petFriendly != req.petFriendly.value {
        continue;
      }
      if req.services.Some? && req.services.value != [] {
        var servicesLower := LowerAll(shelter.services);
        var requestedLower := LowerAll(req.services.value);
        if !AnyServiceHas(servicesLower, requestedLower) {
          continue;
        }
      }
      shelters := shelters + [shelter];
    }
    assert elements[..|elements|] == elements;
    SearchResultOrigins(elements, req);
  }

  /** One more element extends the result by its record when it normalises and passes, and by nothing otherwise. */
  lemma SearchResultStep(elements: seq<Element>, i: nat, req: SearchRequest)
    requires i < |elements|
    ensures SearchResult(elements[..i + 1], req) ==
            SearchResult(elements[..i], req) +
            (match ParseShelter(elements[i])
             case Some(s) => if PassesFilters(s, req) then [s] else []
             case None => [])
  {
    assert elements[..i + 1] == elements[..i] + [elements[i]];
    NormalisedConcat(elements[..i], [elements[i]]);
    SelectConcat(Normalised(elements[..i]), Normalised([elements[i]]), req);
    assert ParseAll([elements[i]]) == [ParseShelter(elements[i])];
  }

  /**
   * Every normalised record comes from exactly one element, in element order,
   * and every element that normalises contributes its record.
   */
  lemma NormalisedOrigins(elements: seq<Element>) returns (idx: seq<nat>)
    ensures |idx| == |Normalised(elements)|
    ensures StrictlyIncreasing(idx)
    ensures forall k :: 0 <= k < |idx| ==>
              idx[k] < |elements| && ParseShelter(elements[idx[k]]) == Some(Normalised(elements)[k])
    ensures forall j :: 0 <= j < |elements| && WellFormed(elements[j]) ==> j in idx
  {
    idx := PresentOrigins(ParseAll(elements));
  }

  /**
   * The filter output is a subsequence of its input in the original order:
   * every kept record passes the filters, and every record that passes is kept.
   */
  lemma SelectOrigins(shelters: seq<Shelter>, req: SearchRequest) returns (idx: seq<nat>)
    ensures |idx| == |Select(shelters, req)|
    ensures StrictlyIncreasing(idx)
    ensures forall k :: 0 <= k < |idx| ==>
              idx[k] < |shelters| && Select(shelters, req)[k] == shelters[idx[k]] && PassesFilters(shelters[idx[k]], req)
    ensures forall j :: 0 <= j < |shelters| && PassesFilters(shelters[j], req) ==> j in idx
  {
    idx := PresentOrigins(Kept(shelters, req));
  }

  /** Every record of a search result passes the filters and normalises from some fetched element. */
  lemma SearchResultOrigins(elements: seq<Element>, req: SearchRequest)
    ensures forall k :: 0 <= k < |SearchResult(elements, req)| ==>
              && PassesFilters(SearchResult(elements, req)[k], req)
              && exists j :: 0 <= j < |elements| && ParseShelter(elements[j]) == Some(SearchResult(elements, req)[k])
  {
    var normalised := Normalised(elements);
    var from := NormalisedOrigins(elements);
    var kept := SelectOrigins(normalised, req);
    forall k | 0 <= k < |SearchResult(elements, req)|
      ensures exists j :: 0 <= j < |elements| && ParseShelter(elements[j]) == Some(SearchResult(elements, req)[k])
    {
      var j := from[kept[k]];
      assert ParseShelter(elements[j]) == Some(SearchResult(elements, req)[k]);
    }
  }

  /** With a pet-friendly filter, every record returned has exactly the requested flag. */
  lemma PetFilterHonoured(elements: seq<Element>, req: SearchRequest, k: nat)
    requires req.petFriendly.Some? && k < |SearchResult(elements, req)|
    ensures SearchResult(elements, req)[k].petFriendly == req.petFriendly.value
  {
    SearchResultOrigins(elements, req);
  }

  /** With a non-empty keyword list, every record returned has a service containing a keyword, ignoring case. */
  lemma ServiceFilterHonoured(elements: seq<Element>, req: SearchRequest, k: nat)
    requires req.services.Some? && req.services.value != [] && k < |SearchResult(elements, req)|
    ensures OffersRequested(SearchResult(elements, req)[k].services, req.services.value)
  {
    SearchResultOrigins(elements, req);
    AnyServiceHasIff(SearchResult(elements, req)[k].services, req.services.value);
  }

  /** Records that all pass the filters are all kept, in order. */
  lemma AllPassKeptWhole(shelters: seq<Shelter>, req: SearchRequest)
    requires forall j :: 0 <= j < |shelters| ==> PassesFilters(shelters[j], req)
    ensures Select(shelters, req) == shelters
  {
    PresentAllSome(Kept(shelters, req));
  }

  /** Without a pet-friendly filter and without keywords, the filters keep every record. */
  lemma NoFiltersKeepAll(shelters: seq<Shelter>, req: SearchRequest)
    requires req.petFriendly.None?
    requires req.services.None? || req.services.value == []
    ensures Select(shelters, req) == shelters
  {
    AllPassKeptWhole(shelters, req);
  }

  lemma NormalisedConcat(a: seq<Element>, b: seq<Element>)
    ensures Normalised(a + b) == Normalised(a) + Normalised(b)
  {
    var pa, pb := ParseAll(a), ParseAll(b);
    var both: seq<Option<Shelter>> := pa + pb;
    forall j | 0 <= j < |a + b|
      ensures ParseAll(a + b)[j] == both[j]
    {
      if j < |a| {
        assert (a + b)[j] == a[j] && both[j] == pa[j];
      } else {
        assert (a + b)[j] == b[j - |a|] && both[j] == pb[j - |a|];
      }
    }
    assert ParseAll(a + b) == both;
    PresentConcat(pa, pb);
  }

  lemma SelectConcat(a: seq<Shelter>, b: seq<Shelter>, req: SearchRequest)
    ensures Select(a + b, req) == Select(a, req) + Select(b, req)
  {
    var ka, kb := Kept(a, req), Kept(b, req);
    var both: seq<Option<Shelter>> := ka + kb;
    assert Kept(a + b, req) == both by {
      assert forall j :: 0 <= j < |a + b| ==>
        both[j].Some? == PassesFilters((a + b)[j], req) && (both[j].Some? ==> both[j].value == (a + b)[j]);
    }
    PresentConcat(ka, kb);
  }

  /** The search of a concatenated batch is the concatenation of the searches: each element is judged alone. */
  lemma SearchResultConcat(a: seq<Element>, b: seq<Element>, req: SearchRequest)
    ensures SearchResult(a + b, req) == SearchResult(a, req) + SearchResult(b, req)
  {
    NormalisedConcat(a, b);
    SelectConcat(Normalised(a), Normalised(b), req);
  }

  /** A malformed element on its own yields nothing. */
  lemma MalformedAlone(bad: Element, req: SearchRequest)
    requires !WellFormed(bad)
    ensures SearchResult([bad], req) == []
  {
    var parsed := ParseAll([bad]);
    assert parsed[..0] == [];
    assert Present(parsed) == [];
  }

  /** A malformed element is dropped without disturbing the rest of the walk. */
  lemma MalformedElementSkipped(a: seq<Element>, bad: Element, b: seq<Element>, req: SearchRequest)
    requires !WellFormed(bad)
    ensures SearchResult(a + [bad] + b, req) == SearchResult(a + b, req)
  {
    calc {
      SearchResult(a + [bad] + b, req);
      { SearchResultConcat(a + [bad], b, req); }
      SearchResult(a + [bad], req) + SearchResult(b, req);
      { SearchResultConcat(a, [bad], req); MalformedAlone(bad, req); }
      SearchResult(a, req) + [] + SearchResult(b, req);
      { assert SearchResult(a, req) + [] == SearchResult(a, req); }
      SearchResult(a, req) + SearchResult(b, req);
      { SearchResultConcat(a, b, req); }
      SearchResult(a + b, req);
    }
  }

  /** Without filters, a batch of well-formed elements yields one record per element. */
  lemma WellFormedBatchKeptWhole(elements: seq<Element>, req: SearchRequest)
    requires forall j :: 0 <= j < |elements| ==> WellFormed(elements[j])
    requires req.petFriendly.None?
    requires req.services.None? || req.services.value == []
    ensures |SearchResult(elements, req)| == |elements|
  {
    NoFiltersKeepAll(Normalised(elements), req);
    PresentAllSome(ParseAll(elements));
  }

  /** Filtering twice with the same request is filtering once. */
  lemma SelectIdempotent(shelters: seq<Shelter>, req: SearchRequest)
    ensures Select(Select(shelters, req), req) == Select(shelters, req)
  {
    var idx := SelectOrigins(shelters, req);
    AllPassKeptWhole(Select(shelters, req), req);
  }

  lemma LowerMeals(service: string, keyword: string)
    requires service == "Meals provided" && keyword == "meals"
    ensures Lower(service)[..5] == keyword == Lower(keyword)
  {
    var lowered := Lower(service);
    assert lowered[0] == 'm' && lowered[1] == 'e' && lowered[2] == 'a' && lowered[3] == 'l' && lowered[4] == 's';
    var kw := Lower(keyword);
    assert kw[0] == 'm' && kw[1] == 'e' && kw[2] == 'a' && kw[3] == 'l' && kw[4] == 's';
  }

  /** The keyword "meals", as a client sends it, selects a record offering "Meals provided". */
  lemma MealsKeywordExample()
    ensures AnyServiceHas(LowerAll(["Meals provided"]), LowerAll(["meals"]))
  {
    var service := "Meals provided";
    var keyword := "meals";
    LowerMeals(service, keyword);
    assert OccursAt(Lower(service), Lower(keyword), 0);
    AnyServiceHasIff([service], [keyword]);
    assert MatchesIgnoringCase([service][0], [keyword][0]);
  }

  /** Python's `"" in s` always holds, so an empty keyword keeps exactly the records that list some service. */
  lemma EmptyKeywordNeedsSomeService(services: seq<string>)
    ensures AnyServiceHas(LowerAll(services), LowerAll([""])) <==> services != []
  {
    AnyServiceHasIff(services, [""]);
    if services != [] {
      assert OccursAt(Lower(services[0]), Lower([""][0]), 0);
    }
  }
}
