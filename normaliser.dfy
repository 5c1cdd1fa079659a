/**
 * The record normaliser: one OpenStreetMap element (a type, an id, an
 * optional point or centre coordinate and a free-form tag map) becomes one
 * fixed `Shelter` record, or nothing when the element lacks what the
 * normaliser reads unconditionally.
 */
module Normaliser {
  import opened Wrappers
  import opened Text
  import opened Decimal
  import opened Subsequences

  /** The element's free-form `tags`; an element without tags has the empty map. */
  type Tags = map<string, string>

  /** The `center` of an area element; either coordinate may be missing. */
  datatype Center = Center(lat: Option<real>, lon: Option<real>)

  /** A raw element as the geographic service returns it; every key may be missing. */
  datatype Element = Element(
    kind: Option<string>,
    id: Option<int>,
    lat: Option<real>,
    lon: Option<real>,
    center: Option<Center>,
    tags: Tags)

  /** The normalised record. */
  datatype Shelter = Shelter(
    id: string,
    name: string,
    lat: real,
    lon: real,
    address: Option<string>,
    city: Option<string>,
    state: Option<string>,
    phone: Option<string>,
    website: Option<string>,
    capacity: Option<int>,
    services: seq<string>,
    petFriendly: bool,
    description: Option<string>)

  /** `tags.get(key)`. */
  function Get(tags: Tags, key: string): Option<string> {
    if key in tags then Some(tags[key]) else None
  }

  /** `if tags.get(key):` -- the key is present and its value is not the empty string. */
  predicate Truthy(tags: Tags, key: string) {
    key in tags && tags[key] != ""
  }

  /** `tags.get(key) == 'yes'`. */
  predicate IsYes(tags: Tags, key: string) {
    Get(tags, key) == Some("yes")
  }

  // ---------------------------------------------------------------- coordinates

  /**
   * What the normaliser can read without raising: the element has a type and
   * an id, a node has its own lat/lon, and any other element that has a
   * `center` has both of the centre's coordinates.
   */
  predicate WellFormed(e: Element) {
    && e.kind.Some?
    && e.id.Some?
    && (e.kind.value == "node" ==> e.lat.Some? && e.lon.Some?)
    && (e.kind.value != "node" && e.center.Some? ==> e.center.value.lat.Some? && e.center.value.lon.Some?)
  }

  /** The coordinate selection: the node's own point, else the centre, else the element's own keys defaulting to 0. */
  function Coordinates(e: Element): (point: Option<(real, real)>)
    ensures WellFormed(e) <==> e.id.Some? && point.Some?
  {
    match e.kind
    case None => None
    case Some(kind) =>
      if kind == "node" then
        if e.lat.Some? && e.lon.Some? then Some((e.lat.value, e.lon.value)) else None
      else if e.center.Some? then
        var c := e.center.value;
        if c.lat.Some? && c.lon.Some? then Some((c.lat.value, c.lon.value)) else None
      else
        Some((e.lat.GetOr(0.0), e.lon.GetOr(0.0)))
  }

  // ---------------------------------------------------------------- name and address

  /** The name: the `name` key if present (even when empty), else `operator` if present, else a fixed default. */
  function ShelterName(tags: Tags): (name: string)
    ensures "name" in tags ==> name == tags["name"]
    ensures "name" !in tags && "operator" in tags ==> name == tags["operator"]
    ensures "name" !in tags && "operator" !in tags ==> name == "Unnamed Shelter"
  {
    Get(tags, "name").GetOr(Get(tags, "operator").GetOr("Unnamed Shelter"))
  }

  /** The address: the non-empty parts among house number and street, joined by one space; absent when neither is. */
  function Address(tags: Tags): (address: Option<string>)
    ensures address.None? <==> !Truthy(tags, "addr:housenumber") && !Truthy(tags, "addr:street")
    ensures Truthy(tags, "addr:housenumber") && Truthy(tags, "addr:street") ==>
              address == Some(tags["addr:housenumber"] + " " + tags["addr:street"])
    ensures Truthy(tags, "addr:housenumber") && !Truthy(tags, "addr:street") ==>
              address == Some(tags["addr:housenumber"])
    ensures !Truthy(tags, "addr:housenumber") && Truthy(tags, "addr:street") ==>
              address == Some(tags["addr:street"])
    ensures address.Some? ==> address.value != ""
  {
    var parts :=
      (if Truthy(tags, "addr:housenumber") then [tags["addr:housenumber"]] else []) +
      (if Truthy(tags, "addr:street") then [tags["addr:street"]] else []);
    if parts == [] then None
    else
      JoinPair(parts, " ");
      Some(Join(parts, " "))
  }

  // ---------------------------------------------------------------- services

  /** One service check: whether it fires for the element's tags, and the label it then appends. */
  datatype Probe = Probe(fires: bool, text: string)

  /** The number of service checks. */
  const ProbeCount := 10

  /** The ten service checks of the normaliser, in the order it makes them. */
  function ServiceTable(tags: Tags): (table: seq<Probe>)
    ensures |table| == ProbeCount
  {
    [ Probe(Truthy(tags, "shelter_type"), "Type: " + Get(tags, "shelter_type").GetOr("")),
      Probe(Truthy(tags, "social_facility:for"), "For: " + Get(tags, "social_facility:for").GetOr("")),
      Probe(IsYes(tags, "wheelchair"), "Wheelchair accessible"),
      Probe(IsYes(tags, "internet_access"), "Internet access"),
      Probe(Truthy(tags, "healthcare"), "Healthcare services"),
      Probe(IsYes(tags, "toilets"), "Restrooms"),
      Probe(IsYes(tags, "shower"), "Showers"),
      Probe(IsYes(tags, "laundry"), "Laundry"),
      Probe(IsYes(tags, "clothes"), "Clothing assistance"),
      Probe(IsYes(tags, "food") || Truthy(tags, "food_service"), "Meals provided") ]
  }

  /** What each check contributes: its label when it fires, nothing otherwise. */
  function Outcomes(table: seq<Probe>): (outcomes: seq<Option<string>>)
    ensures |outcomes| == |table|
    ensures forall i :: 0 <= i < |table| ==>
              outcomes[i].Some? == table[i].fires && (table[i].fires ==> outcomes[i].value == table[i].text)
  {
    if table == [] then []
    else
      var last := table[|table| - 1];
      Outcomes(table[..|table| - 1]) + [if last.fires then Some(last.text) else None]
  }

  /** The services list: the checks run in order, each appending its label when it fires. */
  function Services(tags: Tags): (services: seq<string>)
    ensures |services| <= ProbeCount
  {
    PresentLength(Outcomes(ServiceTable(tags)));
    Present(Outcomes(ServiceTable(tags)))
  }

  /** The check a label belongs to, read off its first letter. */
  function SlotOfInitial(c: char): int {
    match c
    case 'T' => 0 case 'F' => 1 case 'W' => 2 case 'I' => 3 case 'H' => 4
    case 'R' => 5 case 'S' => 6 case 'L' => 7 case 'C' => 8 case 'M' => 9
    case _ => -1
  }

  lemma LabelInitial(tags: Tags, i: nat)
    requires i < ProbeCount
    ensures ServiceTable(tags)[i].text != [] && SlotOfInitial(ServiceTable(tags)[i].text[0]) == i
  {
  }

  /** No two checks of the table carry the same label, whatever the tags: their first letters differ. */
  lemma LabelsDistinct(tags: Tags, i: nat, j: nat)
    requires i < ProbeCount && j < ProbeCount
    ensures ServiceTable(tags)[i].text == ServiceTable(tags)[j].text ==> i == j
  {
    LabelInitial(tags, i);
    LabelInitial(tags, j);
  }

  /**
   * The services list is the fixed ten-label order with some labels left out:
   * each entry is the label of a check that fired, at increasing table
   * positions, so no label appears twice and there are at most ten.
   */
  lemma ServicesInTableOrder(tags: Tags) returns (slots: seq<nat>)
    ensures |slots| == |Services(tags)| <= ProbeCount
    ensures StrictlyIncreasing(slots)
    ensures forall k :: 0 <= k < |slots| ==>
              && slots[k] < ProbeCount
              && ServiceTable(tags)[slots[k]].fires
              && Services(tags)[k] == ServiceTable(tags)[slots[k]].text
    ensures forall k, l :: 0 <= k < l < |Services(tags)| ==> Services(tags)[k] != Services(tags)[l]
  {
    slots := PresentOrigins(Outcomes(ServiceTable(tags)));
    SlotsBounded(slots, ProbeCount);
    forall k, l | 0 <= k < l < |Services(tags)| ensures Services(tags)[k] != Services(tags)[l] {
      LabelsDistinct(tags, slots[k], slots[l]);
    }
  }

  /** A check's label is in the list exactly when that check fires. */
  lemma ServiceListedIffFires(tags: Tags, i: nat)
    requires i < ProbeCount
    ensures ServiceTable(tags)[i].text in Services(tags) <==> ServiceTable(tags)[i].fires
  {
    var table := ServiceTable(tags);
    var slots := PresentOrigins(Outcomes(table));
    if table[i].text in Services(tags) {
      var k :| 0 <= k < |Services(tags)| && Services(tags)[k] == table[i].text;
      LabelsDistinct(tags, i, slots[k]);
    }
    if table[i].fires {
      var k :| 0 <= k < |slots| && slots[k] == i;
      assert Services(tags)[k] == table[i].text;
    }
  }

  /** "Meals provided" is listed iff `food` is "yes" or `food_service` is non-empty. */
  lemma MealsProvidedIff(tags: Tags)
    ensures "Meals provided" in Services(tags) <==> Get(tags, "food") == Some("yes") || Truthy(tags, "food_service")
  {
    ServiceListedIffFires(tags, 9);
  }

  /** "Healthcare services" is listed iff `healthcare` is non-empty, whatever its value. */
  lemma HealthcareIff(tags: Tags)
    ensures "Healthcare services" in Services(tags) <==> Truthy(tags, "healthcare")
  {
    ServiceListedIffFires(tags, 4);
  }

  // ---------------------------------------------------------------- capacity and the record

  /** The capacity: `int()` of a non-empty `capacity` tag; absent when missing, empty or not an integer literal. */
  function Capacity(tags: Tags): (capacity: Option<int>)
    ensures !Truthy(tags, "capacity") ==> capacity == None
  {
    if Truthy(tags, "capacity") then ParseInt(tags["capacity"]) else None
  }

  /**
   * The capacity is an integer exactly when the tag is present and holds an
   * integer literal for it: whitespace, an optional sign, one or more digits
   * (leading zeros allowed), whitespace. Otherwise the `ValueError` is
   * swallowed and the capacity is absent.
   */
  lemma CapacityIff(tags: Tags, n: int)
    ensures Capacity(tags) == Some(n) <==> "capacity" in tags && IsLiteralOf(tags["capacity"], n)
  {
    if "capacity" in tags {
      ParseIntIff(tags["capacity"], n);
      if tags["capacity"] == [] {
        ParseRejectsBlank(tags["capacity"]);
      }
    }
  }

  /** `parse_shelter_data`: `None` stands for the exception the search loop catches. */
  function ParseShelter(e: Element): (r: Option<Shelter>)
    ensures r.Some? <==> WellFormed(e)
  {
    match Coordinates(e)
    case None => None
    case Some(point) =>
      if e.id.None? then None
      else
        var tags := e.tags;
        var shelter := Shelter(
          id := ShowInt(e.id.value),
          name := ShelterName(tags),
          lat := point.0,
          lon := point.1,
          address := Address(tags),
          city := Get(tags, "addr:city"),
          state := Get(tags, "addr:state"),
          phone := Get(tags, "phone"),
          website := if Truthy(tags, "website") then Some(tags["website"]) else Get(tags, "contact:website"),
          capacity := Capacity(tags),
          services := Services(tags),
          petFriendly := IsYes(tags, "animal_shelter") || IsYes(tags, "pets"),
          description := Get(tags, "description"));
        Some(shelter)
  }

  /**
   * The coordinate of a well-formed element's record: a node's own point, else
   * the centre, else each of the element's own coordinates, defaulting to 0.
   */
  lemma CoordinateRule(e: Element)
    requires WellFormed(e)
    ensures var r := ParseShelter(e).value;
      && (e.kind == Some("node") ==> r.lat == e.lat.value && r.lon == e.lon.value)
      && (e.kind != Some("node") && e.center.Some? ==>
            r.lat == e.center.value.lat.value && r.lon == e.center.value.lon.value)
      && (e.kind != Some("node") && e.center.None? ==> r.lat == e.lat.GetOr(0.0) && r.lon == e.lon.GetOr(0.0))
  {
  }

  /**
   * The other fields of a well-formed element's record: an id that reads back
   * as the element's id, the pet-friendly flag, the website fallback, and
   * every remaining field taken from the tags alone.
   */
  lemma NormalisedFields(e: Element)
    requires WellFormed(e)
    ensures var r := ParseShelter(e).value;
      && r.id == ShowInt(e.id.value) && ParseInt(r.id) == e.id
      && (r.petFriendly <==> IsYes(e.tags, "animal_shelter") || IsYes(e.tags, "pets"))
      && r.website == (if Truthy(e.tags, "website") then Some(e.tags["website"]) else Get(e.tags, "contact:website"))
      && r.name == ShelterName(e.tags) && r.address == Address(e.tags)
      && r.services == Services(e.tags) && r.capacity == Capacity(e.tags)
      && r.city == Get(e.tags, "addr:city") && r.state == Get(e.tags, "addr:state")
      && r.phone == Get(e.tags, "phone") && r.description == Get(e.tags, "description")
  {
    ParseShowInt(e.id.value);
  }

  /** The tags never make normalisation fail: only the element's type, id and coordinates do. */
  lemma TagsNeverFail(e: Element, tags: Tags)
    ensures ParseShelter(e).Some? <==> ParseShelter(e.(tags := tags)).Some?
  {
  }

  /** A node with a name, wheelchair access, meals and a capacity of 40. */
  function HopeHouse(): Element {
    Element(Some("node"), Some(7), Some(40.0), Some(-73.0), None,
            map["name" := "Hope House", "wheelchair" := "yes", "food" := "yes", "capacity" := "40"])
  }

  lemma HopeHouseChecks()
    ensures var table := ServiceTable(HopeHouse().tags);
      && !table[0].fires && !table[1].fires && table[2].fires && !table[3].fires && !table[4].fires
      && !table[5].fires && !table[6].fires && !table[7].fires && !table[8].fires && table[9].fires
  {
  }

  /** Only the third and the last check fire: the list is their two labels. */
  lemma {:induction false} ThirdAndLastListed(table: seq<Probe>)
    requires |table| == ProbeCount
    requires !table[0].fires && !table[1].fires && table[2].fires && !table[3].fires && !table[4].fires
    requires !table[5].fires && !table[6].fires && !table[7].fires && !table[8].fires && table[9].fires
    ensures Present(Outcomes(table)) == [table[2].text, table[9].text]
  {
    var opts := Outcomes(table);
    PresentStep(opts, 0);
    PresentStep(opts, 1);
    PresentStep(opts, 2);
    PresentStep(opts, 3);
    PresentStep(opts, 4);
    PresentStep(opts, 5);
    PresentStep(opts, 6);
    PresentStep(opts, 7);
    PresentStep(opts, 8);
    PresentStep(opts, 9);
    assert opts[..0] == [] && opts[..10] == opts;
  }

  lemma HopeHouseServices()
    ensures Services(HopeHouse().tags) == ["Wheelchair accessible", "Meals provided"]
  {
    HopeHouseChecks();
    ThirdAndLastListed(ServiceTable(HopeHouse().tags));
  }

  lemma HopeHouseCapacity()
    ensures Capacity(HopeHouse().tags) == Some(40)
  {
    assert ShowNat(40) == "40" by {
      assert ShowNat(4) == "4";
    }
    ParseShowInt(40);
  }

  lemma HopeHouseOtherTags()
    ensures var tags := HopeHouse().tags;
      && ShelterName(tags) == "Hope House"
      && Address(tags) == None
      && Get(tags, "addr:city") == None && Get(tags, "addr:state") == None
      && Get(tags, "phone") == None && Get(tags, "description") == None
      && !Truthy(tags, "website") && Get(tags, "contact:website") == None
      && !IsYes(tags, "animal_shelter") && !IsYes(tags, "pets")
  {
  }

  /**
   * A node named Hope House with wheelchair access, meals and a capacity of
   * "40" normalises to this record. The element comes in as the parameter `e`
   * rather than as `HopeHouse()` in the body, which keeps the solver from
   * unfolding the literal map in every step of the proof.
   */
  lemma HopeHouseExample(e: Element)
    requires e == HopeHouse()
    ensures ParseShelter(e)
            == Some(Shelter("7", "Hope House", 40.0, -73.0, None, None, None, None, None, Some(40),
                            ["Wheelchair accessible", "Meals provided"], false, None))
  {
    HopeHouseServices();
    HopeHouseCapacity();
    HopeHouseOtherTags();
    assert WellFormed(e);
    CoordinateRule(e);
    NormalisedFields(e);
    assert ShowInt(e.id.value) == "7";
  }
}
