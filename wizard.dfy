/** src/components/projects/ProjectFormWizard.tsx: the three-step project
    form. `currentStep` only moves forward over a completed step, each input
    exists only on its own step, and the payload handed to `onSubmit`
    leaves out `endDate`. The site picker filters and sorts the sites. */
module Wizard {
  import opened Seqs
  import opened Entities

  /** `STEPS.length`. */
  const StepCount: int := 3

  /** `initialData`: every field may be missing. */
  datatype InitialData = InitialData(
    name: Option<string>,
    description: Option<string>,
    siteId: Option<string>,
    microwaveBand: Option<string>,
    address: Option<string>,
    gpsCoordinates: Option<string>,
    startDate: Option<string>,
    endDate: Option<string>)

  /** `formData`. */
  datatype FormData = FormData(
    name: string,
    description: string,
    siteId: string,
    microwaveBand: string,
    address: string,
    gpsCoordinates: string,
    startDate: string,
    endDate: string)

  /** What `handleSubmit` passes on; there is no `endDate`. */
  datatype Submission = Submission(
    name: string,
    siteId: string,
    startDate: string,
    description: Option<string>,
    address: Option<string>,
    gpsCoordinates: Option<string>,
    microwaveBand: Option<string>)

  /** `value || ''`. */
  function OrEmpty(v: Option<string>): (r: string)
    ensures v.None? ==> r == ""
    ensures v.Some? ==> r == v.value
  {
    if v.Some? then v.value else ""
  }

  /** `value || undefined`. */
  function NonEmpty(v: string): (r: Option<string>)
    ensures r.None? <==> v == ""
    ensures r.Some? ==> r.value == v
  {
    if v == "" then None else Some(v)
  }

  /** `s.split('T')[0]`: the text before the first `T`. */
  function DatePart(s: string): (r: string)
    ensures IsPrefix(r, s)
    ensures forall i :: 0 <= i < |r| ==> r[i] != 'T'
    ensures |r| < |s| ==> s[|r|] == 'T'
  {
    if s == [] || s[0] == 'T' then "" else [s[0]] + DatePart(s[1..])
  }

  /** The form as the wizard opens it; `nowIso` stands for
      `new Date().toISOString()`. */
  function InitialForm(initial: InitialData, nowIso: string): (f: FormData)
    ensures f.name == OrEmpty(initial.name) && f.siteId == OrEmpty(initial.siteId)
    ensures f.startDate == if initial.startDate.Some? && initial.startDate.value != "" then DatePart(initial.startDate.value) else DatePart(nowIso)
    ensures f.endDate == if initial.endDate.Some? && initial.endDate.value != "" then DatePart(initial.endDate.value) else ""
  {
    FormData(
      OrEmpty(initial.name),
      OrEmpty(initial.description),
      OrEmpty(initial.siteId),
      OrEmpty(initial.microwaveBand),
      OrEmpty(initial.address),
      OrEmpty(initial.gpsCoordinates),
      if initial.startDate.Some? && initial.startDate.value != "" then DatePart(initial.startDate.value) else DatePart(nowIso),
      if initial.endDate.Some? && initial.endDate.value != "" then DatePart(initial.endDate.value) else "")
  }

  /** `isStepComplete`. */
  function StepComplete(f: FormData, step: int): (complete: bool)
    ensures complete ==> 0 <= step <= 2
  {
    if step == 0 then f.name != ""
    else if step == 1 then f.siteId != ""
    else if step == 2 then f.startDate != ""
    else false
  }

  /** The payload for a form whose current step is complete. */
  function SubmissionOf(f: FormData): (s: Submission)
    ensures s.name == f.name && s.siteId == f.siteId && s.startDate == f.startDate
    ensures s.description.None? <==> f.description == ""
    ensures s.address.None? <==> f.address == ""
    ensures s.gpsCoordinates.None? <==> f.gpsCoordinates == ""
    ensures s.microwaveBand.None? <==> f.microwaveBand == ""
  {
    Submission(f.name, f.siteId, f.startDate, NonEmpty(f.description), NonEmpty(f.address), NonEmpty(f.gpsCoordinates), NonEmpty(f.microwaveBand))
  }

  // -----------------------------------------------------------------------
  // The site picker.

  predicate SiteMatchesQuery(s: Site, searchQuery: string) {
    searchQuery == "" || Contains(Lower(s.siteId), Lower(searchQuery)) || Contains(Lower(s.location), Lower(searchQuery))
  }

  function SiteFilterFor(searchQuery: string): Site -> bool {
    s => SiteMatchesQuery(s, searchQuery)
  }

  predicate SiteIdLe(a: Site, b: Site) {
    LexLe(a.siteId, b.siteId)
  }

  lemma SiteIdLeIsTotalPreorder()
    ensures TotalPreorder(SiteIdLe)
  {
    forall a: Site, b: Site ensures SiteIdLe(a, b) || SiteIdLe(b, a) {
      LexLeTotal(a.siteId, b.siteId);
    }
    forall a: Site, b: Site, c: Site | SiteIdLe(a, b) && SiteIdLe(b, c) ensures SiteIdLe(a, c) {
      LexLeTransitive(a.siteId, b.siteId, c.siteId);
    }
  }

  lemma FilteredSitesAll(sites: seq<Site>, searchQuery: string)
    ensures searchQuery == "" ==> Filter(sites, SiteFilterFor(searchQuery)) == sites
  {
    if searchQuery == "" {
      FilterAll(sites, SiteFilterFor(searchQuery));
    }
  }

  /** `filteredSites`: the matching sites, ordered by their site code. With
      no query every site is listed. */
  function FilteredSites(sites: seq<Site>, searchQuery: string): (r: seq<Site>)
    ensures multiset(r) == multiset(Filter(sites, SiteFilterFor(searchQuery)))
    ensures SortedBy(r, SiteIdLe)
    ensures forall i :: 0 <= i < |r| ==> r[i] in sites && SiteMatchesQuery(r[i], searchQuery)
    ensures searchQuery == "" ==> multiset(r) == multiset(sites)
  {
    FilteredSitesFacts(sites, searchQuery);
    SortBy(Filter(sites, SiteFilterFor(searchQuery)), SiteIdLe)
  }

  lemma FilteredSitesFacts(sites: seq<Site>, searchQuery: string)
    ensures var r := SortBy(Filter(sites, SiteFilterFor(searchQuery)), SiteIdLe);
      && SortedBy(r, SiteIdLe)
      && (forall i :: 0 <= i < |r| ==> r[i] in sites && SiteMatchesQuery(r[i], searchQuery))
      && (searchQuery == "" ==> multiset(r) == multiset(sites))
  {
    var kept := Filter(sites, SiteFilterFor(searchQuery));
    var r := SortBy(kept, SiteIdLe);
    SiteIdLeIsTotalPreorder();
    SortBySorted(kept, SiteIdLe);
    FilteredSitesAll(sites, searchQuery);
    forall i | 0 <= i < |r| ensures r[i] in sites && SiteMatchesQuery(r[i], searchQuery) {
      assert r[i] in multiset(kept);
      assert r[i] in kept;
    }
  }

  function SiteWithId(id: string): Site -> bool {
    (s: Site) => s.id == id
  }

  // -----------------------------------------------------------------------
  // The component state.

  class ProjectFormWizard {
    var currentStep: int
    var formData: FormData
    var searchQuery: string

    /** The step stays in range, and the steps already passed were
        complete when they were left: the name is set from step 1 on and the
        site from step 2 on, since neither input exists on a later step. */
    predicate Valid()
      reads this
    {
      && 0 <= currentStep < StepCount
      && (currentStep >= 1 ==> formData.name != "")
      && (currentStep >= 2 ==> formData.siteId != "")
    }

    predicate IsStepComplete(step: int)
      reads this
    {
      StepComplete(formData, step)
    }

    constructor (initial: InitialData, nowIso: string)
      ensures currentStep == 0 && formData == InitialForm(initial, nowIso) && searchQuery == ""
      ensures Valid()
    {
      currentStep := 0;
      formData := InitialForm(initial, nowIso);
      searchQuery := "";
    }

    /** `handleNext`. */
    method HandleNext()
      requires Valid()
      modifies this
      ensures Valid()
      ensures currentStep == if old(currentStep) < StepCount - 1 && old(IsStepComplete(currentStep)) then old(currentStep) + 1 else old(currentStep)
      ensures formData == old(formData) && searchQuery == old(searchQuery)
    {
      if currentStep < StepCount - 1 {
        if !IsStepComplete(currentStep) {
          return;
        }
        currentStep := currentStep + 1;
      }
    }

    /** `handlePrevious`. */
    method HandlePrevious()
      requires Valid()
      modifies this
      ensures Valid()
      ensures currentStep == if old(currentStep) > 0 then old(currentStep) - 1 else 0
      ensures formData == old(formData) && searchQuery == old(searchQuery)
    {
      if currentStep > 0 {
        currentStep := currentStep - 1;
      }
    }

    /** The name input, rendered on step 0 only. */
    method SetName(v: string)
      requires Valid() && currentStep == 0
      modifies this
      ensures Valid() && formData == old(formData).(name := v)
      ensures currentStep == old(currentStep) && searchQuery == old(searchQuery)
    {
      formData := formData.(name := v);
    }

    /** The description input, on step 0. */
    method SetDescription(v: string)
      requires Valid() && currentStep == 0
      modifies this
      ensures Valid() && formData == old(formData).(description := v)
      ensures currentStep == old(currentStep) && searchQuery == old(searchQuery)
    {
      formData := formData.(description := v);
    }

    /** The site search box, on step 1. */
    method SetSearchQuery(q: string)
      requires Valid() && currentStep == 1
      modifies this
      ensures Valid() && searchQuery == q
      ensures currentStep == old(currentStep) && formData == old(formData)
    {
      searchQuery := q;
    }

    /** The site select, on step 1; its empty option gives `""`. */
    method SetSiteId(v: string)
      requires Valid() && currentStep == 1
      modifies this
      ensures Valid() && formData == old(formData).(siteId := v)
      ensures currentStep == old(currentStep) && searchQuery == old(searchQuery)
    {
      formData := formData.(siteId := v);
    }

    /** The band select, on step 1. */
    method SetMicrowaveBand(v: string)
      requires Valid() && currentStep == 1
      modifies this
      ensures Valid() && formData == old(formData).(microwaveBand := v)
      ensures currentStep == old(currentStep) && searchQuery == old(searchQuery)
    {
      formData := formData.(microwaveBand := v);
    }

    /** The address input, on step 1; the geocoding lookup it starts is not
        modelled. */
    method SetAddress(v: string)
      requires Valid() && currentStep == 1
      modifies this
      ensures Valid() && formData == old(formData).(address := v)
      ensures currentStep == old(currentStep) && searchQuery == old(searchQuery)
    {
      formData := formData.(address := v);
    }

    /** `handleAddressSelect`: both fields from the suggestion, `''` for a
        missing one. */
    method SelectAddress(address: Option<string>, coordinates: Option<string>)
      requires Valid() && currentStep == 1
      modifies this
      ensures Valid() && formData == old(formData).(address := OrEmpty(address), gpsCoordinates := OrEmpty(coordinates))
      ensures currentStep == old(currentStep) && searchQuery == old(searchQuery)
    {
      formData := formData.(address := OrEmpty(address), gpsCoordinates := OrEmpty(coordinates));
    }

    /** The coordinates input, on step 1. */
    method SetGpsCoordinates(v: string)
      requires Valid() && currentStep == 1
      modifies this
      ensures Valid() && formData == old(formData).(gpsCoordinates := v)
      ensures currentStep == old(currentStep) && searchQuery == old(searchQuery)
    {
      formData := formData.(gpsCoordinates := v);
    }

    /** The button that copies the selected site's coordinates; it is shown
        only when the site has some. */
    method UseSiteCoordinates(sites: seq<Site>)
      requires Valid() && currentStep == 1
      modifies this
      ensures Valid() && currentStep == old(currentStep) && searchQuery == old(searchQuery)
      ensures var site := Find(sites, SiteWithId(old(formData).siteId));
        formData == if site.Some? && site.value.gpsCoordinates.Some? && site.value.gpsCoordinates.value != ""
          then old(formData).(gpsCoordinates := site.value.gpsCoordinates.value)
          else old(formData)
    {
      var selected := Find(sites, SiteWithId(formData.siteId));
      if selected.Some? && selected.value.gpsCoordinates.Some? && selected.value.gpsCoordinates.value != "" {
        formData := formData.(gpsCoordinates := selected.value.gpsCoordinates.value);
      }
    }

    /** The start date input, on step 2. */
    method SetStartDate(v: string)
      requires Valid() && currentStep == 2
      modifies this
      ensures Valid() && formData == old(formData).(startDate := v)
      ensures currentStep == old(currentStep) && searchQuery == old(searchQuery)
    {
      formData := formData.(startDate := v);
    }

    /** The end date input, on step 2. */
    method SetEndDate(v: string)
      requires Valid() && currentStep == 2
      modifies this
      ensures Valid() && formData == old(formData).(endDate := v)
      ensures currentStep == old(currentStep) && searchQuery == old(searchQuery)
    {
      formData := formData.(endDate := v);
    }

    /** `handleSubmit`: only the current step is checked. Submitted from
        the last step of a valid wizard, the payload has a name, a site and
        a start date. */
    method HandleSubmit() returns (payload: Option<Submission>)
      ensures payload.None? <==> !IsStepComplete(currentStep)
      ensures payload.Some? ==> payload.value == SubmissionOf(formData)
      ensures payload.Some? && Valid() && currentStep == StepCount - 1 ==>
        payload.value.name != "" && payload.value.siteId != "" && payload.value.startDate != ""
    {
      if !IsStepComplete(currentStep) {
        return None;
      }
      payload := Some(SubmissionOf(formData));
    }
  }
}
