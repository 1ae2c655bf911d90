/** The one-line label for a geocoding match: "name · admin1, admin2 · country",
    leaving out every part that is missing or empty. */
module Location {
  import opened Wrappers
  import opened Text

  /** The fields of a geocoding result the label reads; each may be absent. */
  datatype Place = Place(name: Option<string>, admin1: Option<string>, admin2: Option<string>, country: Option<string>)

  /** Python truthiness of an optional string: present and non-empty. */
  predicate Given(part: Option<string>) {
    part.Some? && part.value != ""
  }

  /** `[b for b in parts if b]`. */
  function Present(parts: seq<Option<string>>): (kept: seq<string>)
    ensures |kept| <= |parts|
    ensures forall i :: 0 <= i < |kept| ==> kept[i] != ""
    ensures kept == [] <==> forall i :: 0 <= i < |parts| ==> !Given(parts[i])
    ensures |parts| > 0 && Given(parts[0]) ==> kept[0] == parts[0].value
    ensures |parts| > 0 && Given(parts[|parts| - 1]) ==> kept[|kept| - 1] == parts[|parts| - 1].value
  {
    if parts == [] then []
    else (if Given(parts[0]) then [parts[0].value] else []) + Present(parts[1..])
  }

  /** `nice_loc_label`. */
  function NiceLocLabel(place: Place): (text: string)
    ensures text == "" <==>
              !Given(place.name) && !Given(place.admin1) && !Given(place.admin2) && !Given(place.country)
    ensures Given(place.name) ==> place.name.value <= text
    ensures Given(place.country) ==>
              exists k :: 0 <= k <= |text| && text[k..] == place.country.value
  {
    var admin := Present([place.admin1, place.admin2]);
    var bits := [place.name] + (if admin != [] then [Some(Join(admin, ", "))] else []);
    var bits := bits + (if Given(place.country) then [place.country] else []);
    var segments := Present(bits);
    JoinEmpty(admin, ", ");
    JoinEmpty(segments, " · ");
    if segments != [] then JoinEnds(segments, " · "); Join(segments, " · ")
    else Join(segments, " · ")
  }

  /** The value of one part, as a list of zero or one string. */
  function Part(part: Option<string>): seq<string> {
    if Given(part) then [part.value] else []
  }

  /** The given admin areas, admin1 first. */
  function AdminNames(place: Place): seq<string> {
    Part(place.admin1) + Part(place.admin2)
  }

  /** The label's segments in closed form: the name if given, the admin areas
      joined by ", " if either is given, the country if given. */
  function Segments(place: Place): seq<string> {
    Part(place.name)
      + (if AdminNames(place) != [] then [Join(AdminNames(place), ", ")] else [])
      + Part(place.country)
  }

  /** Filtering one part keeps it exactly when it is given. */
  lemma PresentOne(part: Option<string>)
    ensures Present([part]) == Part(part)
  {
    assert [part][1..] == [];
  }

  /** Filtering distributes over concatenation, so no given part is dropped
      and the order is kept. */
  lemma {:induction false} PresentAppend(a: seq<Option<string>>, b: seq<Option<string>>)
    ensures Present(a + b) == Present(a) + Present(b)
  {
    if a == [] {
      assert a + b == b;
    } else {
      assert (a + b)[1..] == a[1..] + b;
      PresentAppend(a[1..], b);
    }
  }

  /** For every place the label is its closed-form segments joined by " · ",
      and no segment is empty. */
  lemma NiceLocLabelSegments(place: Place)
    ensures NiceLocLabel(place) == Join(Segments(place), " · ")
    ensures forall i :: 0 <= i < |Segments(place)| ==> Segments(place)[i] != ""
  {
    var admin := Present([place.admin1, place.admin2]);
    PresentAppend([place.admin1], [place.admin2]);
    assert [place.admin1, place.admin2] == [place.admin1] + [place.admin2];
    PresentOne(place.admin1);
    PresentOne(place.admin2);
    assert admin == AdminNames(place);
    JoinEmpty(admin, ", ");
    var middle := if admin != [] then [Some(Join(admin, ", "))] else [];
    var tail := if Given(place.country) then [place.country] else [];
    assert Present(middle) == (if admin != [] then [Join(admin, ", ")] else []) by {
      if admin != [] {
        PresentOne(Some(Join(admin, ", ")));
      }
    }
    assert Present(tail) == Part(place.country) by {
      if Given(place.country) {
        PresentOne(place.country);
      }
    }
    PresentOne(place.name);
    PresentAppend([place.name], middle);
    PresentAppend([place.name] + middle, tail);
  }

  /** Every part given: name, the two admin areas joined by a comma, country. */
  lemma NiceLocLabelFull(name: string, admin1: string, admin2: string, country: string)
    requires name != "" && admin1 != "" && admin2 != "" && country != ""
    ensures NiceLocLabel(Place(Some(name), Some(admin1), Some(admin2), Some(country))) ==
              name + " · " + admin1 + ", " + admin2 + " · " + country
  {
    var place := Place(Some(name), Some(admin1), Some(admin2), Some(country));
    NiceLocLabelSegments(place);
    assert AdminNames(place) == [admin1, admin2];
    assert Join([admin1, admin2], ", ") == admin1 + ", " + admin2 by {
      assert [admin1, admin2][1..] == [admin2];
    }
    assert Segments(place) == [name, admin1 + ", " + admin2, country];
    JoinThree(name, admin1 + ", " + admin2, country, " · ");
  }

  lemma JoinThree(a: string, b: string, c: string, sep: string)
    ensures Join([a, b, c], sep) == a + sep + b + sep + c
  {
    assert [a, b, c][1..] == [b, c];
    assert [b, c][1..] == [c];
  }

  /** Without admin areas no empty segment is left between name and country. */
  lemma NiceLocLabelNoAdmin(name: string, admin1: Option<string>, admin2: Option<string>, country: string)
    requires name != "" && country != ""
    requires !Given(admin1) && !Given(admin2)
    ensures NiceLocLabel(Place(Some(name), admin1, admin2, Some(country))) == name + " · " + country
  {
  }

  /** A single admin area appears alone, with no stray comma. */
  lemma NiceLocLabelOneAdmin(name: string, admin1: Option<string>, admin2: string, country: string)
    requires name != "" && admin2 != "" && country != ""
    requires !Given(admin1)
    ensures NiceLocLabel(Place(Some(name), admin1, Some(admin2), Some(country))) ==
              name + " · " + admin2 + " · " + country
  {
    var place := Place(Some(name), admin1, Some(admin2), Some(country));
    NiceLocLabelSegments(place);
    assert AdminNames(place) == [admin2];
    assert Segments(place) == [name, admin2, country];
    JoinThree(name, admin2, country, " · ");
  }

  /** A missing name leaves no leading separator. */
  lemma NiceLocLabelNoName(name: Option<string>, admin1: string, country: Option<string>)
    requires !Given(name) && admin1 != "" && !Given(country)
    ensures NiceLocLabel(Place(name, Some(admin1), None, country)) == admin1
  {
  }
}
