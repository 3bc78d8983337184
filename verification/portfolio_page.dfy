/**
 * The portfolio page: the category filter tabs, the technology chips of a
 * card and the "request info" link into the contact page.
 */
module PortfolioPage {
  import opened Wrappers
  import opened JsString
  import opened AdminProjects
  import ContactPage

  /** The filter tabs: all, student or business projects. */
  datatype Filter = All | OnlyStudent | OnlyBusiness

  predicate Shows(f: Filter, p: ProjectRow) {
    match f
    case All => true
    case OnlyStudent => p.category == Student
    case OnlyBusiness => p.category == Business
  }

  /** `projects.filter(...)`: the projects the tab shows, in the listing's order. */
  function FilterProjects(ps: seq<ProjectRow>, f: Filter): (r: seq<ProjectRow>)
    ensures forall p :: p in r <==> p in ps && Shows(f, p)
    ensures |r| <= |ps|
    ensures f == All ==> r == ps
  {
    if |ps| == 0 then []
    else if Shows(f, ps[0]) then [ps[0]] + FilterProjects(ps[1..], f)
    else FilterProjects(ps[1..], f)
  }

  /** Filtering a concatenation filters each part: the listing's order is kept. */
  lemma {:induction false} FilterConcat(a: seq<ProjectRow>, b: seq<ProjectRow>, f: Filter)
    ensures FilterProjects(a + b, f) == FilterProjects(a, f) + FilterProjects(b, f)
  {
    if |a| > 0 {
      assert (a + b)[1..] == a[1..] + b;
      FilterConcat(a[1..], b, f);
    } else {
      assert a + b == b;
    }
  }

  /** The student and business tabs split the listing between them. */
  lemma {:induction false} TabsPartition(ps: seq<ProjectRow>)
    ensures |FilterProjects(ps, OnlyStudent)| + |FilterProjects(ps, OnlyBusiness)| == |ps|
  {
    if |ps| > 0 {
      TabsPartition(ps[1..]);
    }
  }

  /** The number of technology chips a card shows. */
  const ChipLimit: nat := 4

  /** `technologies.slice(0, 4)`. */
  function ShownChips(technologies: seq<string>): (chips: seq<string>)
    ensures |chips| == if |technologies| <= ChipLimit then |technologies| else ChipLimit
    ensures chips == technologies[..|chips|]
  {
    if |technologies| <= ChipLimit then technologies else technologies[..ChipLimit]
  }

  /** The `+N` badge: shown only when more than four technologies exist. */
  function OverflowBadge(technologies: seq<string>): (n: Option<nat>)
    ensures n.Some? <==> |technologies| > ChipLimit
    ensures n.Some? ==> n.value >= 1
  {
    if |technologies| > ChipLimit then Some(|technologies| - ChipLimit) else None
  }

  /** The chips and the badge together account for every technology. */
  lemma ChipsAccountForAll(technologies: seq<string>)
    ensures |ShownChips(technologies)| + OverflowBadge(technologies).GetOr(0) == |technologies|
    ensures ShownChips(technologies) + technologies[|ShownChips(technologies)|..] == technologies
  {
  }

  /** The `type` parameter of a card's request link. */
  function LinkType(p: ProjectRow): (t: string)
    ensures t == "graduation" <==> p.category == Student
    ensures t == "trial" <==> p.category == Business
  {
    match p.category
    case Student => "graduation"
    case Business => "trial"
  }

  /**
   * `/contact?project=<id>&type=<graduation|trial>`: the project's id follows
   * "project=", and the request type is what follows the last '='.
   */
  function RequestInfoLink(p: ProjectRow): (link: string)
    ensures StartsWith(link, "/contact?project=")
    ensures |link| >= 17 + |p.id| && link[17..17 + |p.id|] == p.id
    ensures link[17 + |p.id|..] == "&type=" + LinkType(p)
    ensures AfterLast(link, '=') == LinkType(p)
  {
    var prefix := "/contact?project=";
    var front := prefix + p.id + "&type";
    var t := LinkType(p);
    var link := front + ['='] + t;
    assert |prefix| == 17 && link[..17] == prefix;
    assert link[17..17 + |p.id|] == p.id;
    assert link[17 + |p.id|..] == "&type=" + t;
    assert '=' !in t by {
      if p.category.Student? {
        assert t == "graduation";
      } else {
        assert t == "trial";
      }
    }
    AfterLastOf(front, '=', t);
    link
  }

  /**
   * Following a card's link to the contact page preselects the form of the
   * project's category and the project itself, so the request is stored with
   * the matching type.
   */
  lemma RequestInfoPrefillsForm(p: ProjectRow)
    requires p.id != ""
    ensures var form := ContactPage.Prefill(ContactPage.InitialForm, Some(p.id), Some(LinkType(p)));
            form.projectId == p.id
            && (form.formType == ContactPage.StudentForm <==> p.category == Student)
            && ContactPage.RequestTypeOf(form.formType) == LinkType(p)
  {
  }
}
