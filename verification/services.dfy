/**
  The AI-service catalogue (script.js): adding a service from the form
  (`handleServiceSubmit`), deleting one (`deleteService`) and the name
  search (`filterServices`).
*/
module Services {
  import opened Wrappers
  import Text
  import Subscriptions

  datatype Service = Service(name: string, url: string)

  /** `services`: the lists of services, keyed by category. */
  type Catalog = map<string, seq<Service>>

  /** The categories the page has a section for, in page order. */
  const Categories: seq<string> := ["agent", "image", "video", "tts", "music", "editing"]

  /** The raw values of the service form. */
  datatype ServiceForm = ServiceForm(name: string, url: string, category: string)

  /** The two alerts a service submission can raise. */
  datatype ServiceError =
    | MissingField  // "모든 필드를 입력해주세요."
    | InvalidUrl    // "올바른 URL을 입력해주세요."

  /**
    The checks of `handleServiceSubmit`: name and url are trimmed and must
    be non-empty, a category must be chosen, and the url must parse;
    `urlParses` stands for `new URL(url)` not throwing.
  */
  function ValidateService(f: ServiceForm, urlParses: bool): (r: Result<Service, ServiceError>)
    ensures (r.Failure? && r.error == MissingField) <==>
      (Text.Trim(f.name) == [] || Text.Trim(f.url) == [] || f.category == [])
    ensures (r.Failure? && r.error == InvalidUrl) <==>
      (Text.Trim(f.name) != [] && Text.Trim(f.url) != [] && f.category != [] && !urlParses)
    ensures r.Success? ==> r.value == Service(Text.Trim(f.name), Text.Trim(f.url))
  {
    var name := Text.Trim(f.name);
    var url := Text.Trim(f.url);
    if name == [] || url == [] || f.category == [] then Failure(MissingField)
    else if !urlParses then Failure(InvalidUrl)
    else Success(Service(name, url))
  }

  /**
    `handleServiceSubmit`: a missing category is created empty, then the new
    service is appended to it; every other category is untouched.
  */
  function AddService(catalog: Catalog, f: ServiceForm, urlParses: bool): (r: Result<Catalog, ServiceError>)
    ensures r.Success? <==> ValidateService(f, urlParses).Success?
    ensures r.Failure? ==> r.error == ValidateService(f, urlParses).error
    ensures r.Success? ==>
      var before := if f.category in catalog then catalog[f.category] else [];
      && r.value.Keys == catalog.Keys + {f.category}
      && r.value[f.category] == before + [ValidateService(f, urlParses).value]
      && (forall c :: c in catalog && c != f.category ==> r.value[c] == catalog[c])
  {
    match ValidateService(f, urlParses)
    case Failure(e) => Failure(e)
    case Success(s) =>
      var grown := if f.category in catalog then catalog else catalog[f.category := []];
      Success(grown[f.category := grown[f.category] + [s]])
  }

  /**
    `deleteService(category, index)`: when the user confirms, splice one
    service out of a category the page rendered, so the category exists;
    the services after it move down one place in order. Cancelling the
    `confirm` dialog changes nothing.
  */
  function DeleteService(catalog: Catalog, category: string, index: nat, confirmed: bool): (r: Catalog)
    requires category in catalog
    ensures !confirmed ==> r == catalog
    ensures r.Keys == catalog.Keys
    ensures var list := catalog[category];
      confirmed && index < |list| ==>
        && |r[category]| == |list| - 1
        && (forall j :: 0 <= j < index ==> r[category][j] == list[j])
        && (forall j :: index <= j < |r[category]| ==> r[category][j] == list[j + 1])
        && multiset(r[category]) + multiset{list[index]} == multiset(list)
    ensures index >= |catalog[category]| ==> r[category] == catalog[category]
    ensures forall c :: c in catalog && c != category ==> r[c] == catalog[c]
  {
    var list := catalog[category];
    if !confirmed then catalog
    else if index < |list| then
      Subscriptions.RemoveAtIsPermutationMinusOne(list, index);
      catalog[category := Subscriptions.RemoveAt(list, index)]
    else
      catalog[category := Subscriptions.RemoveAt(list, index)]
  }

  /** Deleting the service just added to an existing category restores the catalogue. */
  lemma DeleteUndoesAddService(catalog: Catalog, f: ServiceForm, urlParses: bool)
    requires f.category in catalog
    requires AddService(catalog, f, urlParses).Success?
    ensures DeleteService(AddService(catalog, f, urlParses).value, f.category, |catalog[f.category]|, true) == catalog
  {
    var r := AddService(catalog, f, urlParses).value;
    var d := DeleteService(r, f.category, |catalog[f.category]|, true);
    assert d[f.category] == catalog[f.category];
    assert d.Keys == catalog.Keys;
  }

  /** `service.name.toLowerCase().includes(searchLower)`. */
  predicate Matches(s: Service, searchLower: string) {
    Text.Contains(Text.ToLower(s.name), searchLower)
  }

  /**
    The positions, from `from` on, of the services that match, in list
    order: the `filter` followed by `indexOf` of each match.
  */
  function MatchingFrom(list: seq<Service>, searchLower: string, from: nat): (r: seq<nat>)
    requires from <= |list|
    ensures forall k :: 0 <= k < |r| ==> from <= r[k] < |list| && Matches(list[r[k]], searchLower)
    ensures forall i :: from <= i < |list| && Matches(list[i], searchLower) ==> i in r
    ensures forall a, b :: 0 <= a < b < |r| ==> r[a] < r[b]
    decreases |list| - from
  {
    if from == |list| then []
    else
      var rest := MatchingFrom(list, searchLower, from + 1);
      if Matches(list[from], searchLower) then [from] + rest else rest
  }

  /** The positions of all matching services of a list, ascending. */
  function MatchingIndices(list: seq<Service>, searchLower: string): seq<nat> {
    MatchingFrom(list, searchLower, 0)
  }

  /** A category section after a search: hidden, or showing the listed services. */
  datatype CategoryView = Hidden | Shown(indices: seq<nat>)

  /** `services[category] || []`. */
  function ServicesOf(catalog: Catalog, category: string): seq<Service> {
    if category in catalog then catalog[category] else []
  }

  /**
    One category of `filterServices`: shown with its matches when there is
    at least one, hidden otherwise.
  */
  function FilterCategory(catalog: Catalog, category: string, searchLower: string): (v: CategoryView)
    ensures var list := ServicesOf(catalog, category);
            v.Shown? <==> exists i :: 0 <= i < |list| && Matches(list[i], searchLower)
    ensures v.Shown? ==> v.indices == MatchingIndices(ServicesOf(catalog, category), searchLower)
  {
    var list := ServicesOf(catalog, category);
    var m := MatchingIndices(list, searchLower);
    if |m| > 0 then
      assert Matches(list[m[0]], searchLower);
      Shown(m)
    else
      Hidden
  }

  /**
    `filterServices(searchTerm)`: a blank term shows every category in full
    (None); otherwise each category in page order is filtered with the
    lower-cased, untrimmed term.
  */
  function FilterServices(catalog: Catalog, searchTerm: string): (r: Option<seq<CategoryView>>)
    ensures r.None? <==> Text.IsBlank(searchTerm)
    ensures r.Some? ==> |r.value| == |Categories|
    ensures r.Some? ==> forall c :: 0 <= c < |Categories| ==>
      (r.value[c].Shown? <==>
         exists i :: 0 <= i < |ServicesOf(catalog, Categories[c])|
           && Matches(ServicesOf(catalog, Categories[c])[i], Text.ToLower(searchTerm)))
    ensures r.Some? ==> forall c :: 0 <= c < |Categories| && r.value[c].Shown? ==>
      r.value[c].indices == MatchingIndices(ServicesOf(catalog, Categories[c]), Text.ToLower(searchTerm))
  {
    Text.TrimEmptyIffBlank(searchTerm);
    if Text.Trim(searchTerm) == [] then None
    else
      var searchLower := Text.ToLower(searchTerm);
      Some(seq(|Categories|, c requires 0 <= c < |Categories| => FilterCategory(catalog, Categories[c], searchLower)))
  }

  /** Lower-casing never turns a white-space character into another kind, or back. */
  lemma LowerKeepsWhiteSpace(c: char)
    ensures Text.IsWhiteSpace(Text.LowerChar(c)) <==> Text.IsWhiteSpace(c)
  {}

  /** The search is case-insensitive: lower-casing the term first changes nothing. */
  lemma FilterIgnoresCase(catalog: Catalog, searchTerm: string)
    ensures FilterServices(catalog, Text.ToLower(searchTerm)) == FilterServices(catalog, searchTerm)
  {
    var lower := Text.ToLower(searchTerm);
    forall k | 0 <= k < |searchTerm|
      ensures Text.IsWhiteSpace(lower[k]) <==> Text.IsWhiteSpace(searchTerm[k])
    {
      LowerKeepsWhiteSpace(searchTerm[k]);
    }
    assert Text.IsBlank(lower) <==> Text.IsBlank(searchTerm);
    Text.ToLowerIdempotent(searchTerm);
    Text.TrimEmptyIffBlank(lower);
    Text.TrimEmptyIffBlank(searchTerm);
  }

  /**
    The term is lower-cased but not trimmed: a term with a leading space
    only matches names that contain a space.
  */
  lemma PaddedTermNeedsSpace(s: Service, searchLower: string)
    requires searchLower != [] && searchLower[0] == ' '
    requires Matches(s, searchLower)
    ensures ' ' in Text.ToLower(s.name)
  {
    var hay := Text.ToLower(s.name);
    var i :| Text.OccursAt(hay, searchLower, i);
    assert hay[i] == hay[i..i + |searchLower|][0];
  }
}
