/**
 * The accessibility heuristics of the audit (`check_accessibility`): filters over
 * the page's elements in document order. They are approximations by design:
 * the "contrast" test looks at substrings of an inline style and computes no ratio.
 */
module Accessibility {
  import opened Wrappers
  import opened Seqs
  import opened Strings
  import opened Html

  const NoAriaRoles := "No ARIA Roles Found"
  const NoSkipLinks := "No Skip Navigation Links Found"
  const AllKeyboardAccessible := "All Elements Accessible via Keyboard"
  const NoContrastIssues := "No Contrast Issues Found"

  /** A list of the report, or the message that stands in its place when the list is empty. */
  datatype Listing = Items(items: seq<string>) | Message(text: string)

  /** The entries a reader of the report recovers from a listing: none behind a message. */
  function Entries(l: Listing): seq<string>
  {
    match l
    case Items(xs) => xs
    case Message(_) => []
  }

  /** `xs if xs else message`. */
  function OrMessage(xs: seq<string>, message: string): (r: Listing)
    ensures Entries(r) == xs
    ensures r.Message? <==> xs == []
    ensures r.Message? ==> r.text == message
  {
    if xs == [] then Message(message) else Items(xs)
  }

  datatype AccessibilityReport = AccessibilityReport(
    ariaRoles: Listing,
    formsMissingLabels: nat,
    skipNavigationLinks: Listing,
    missingTabindex: Listing,
    contrastIssues: Listing)

  predicate HasRole(t: Tag) { "role" in t.attrs }

  function Role(t: Tag): string { GetOr(t, "role", "") }

  /** The `role` values of the elements that carry one, in document order. */
  function AriaRoles(tags: seq<Tag>): (r: seq<string>)
    ensures |r| == Count(tags, HasRole)
    ensures forall v :: v in r <==> exists t :: t in tags && Get(t, "role") == Some(v)
  {
    SelectLength(tags, HasRole, Role);
    SelectMembers(tags, HasRole, Role);
    Select(tags, HasRole, Role)
  }

  predicate IsFormControl(t: Tag)
  {
    t.name == "input" || t.name == "textarea" || t.name == "select"
  }

  /** A control without a non-empty `aria-label` and without any earlier sibling `label`. */
  predicate MissesLabel(t: Tag)
  {
    IsFormControl(t) && !HasValue(t, "aria-label") && !t.labelBefore
  }

  /**
   * The number of unlabelled controls found by searching every form: a control is
   * found once per enclosing form, and a control outside every form is not found.
   */
  function FormsMissingLabels(tags: seq<Tag>): (n: nat)
    ensures n == 0 <==> forall t :: t in tags && MissesLabel(t) ==> t.forms == 0
    decreases |tags|
  {
    if tags == [] then 0
    else
      assert forall t :: t in tags <==> t == tags[0] || t in tags[1..];
      (if MissesLabel(tags[0]) then tags[0].forms else 0) + FormsMissingLabels(tags[1..])
  }

  /** The count adds up over consecutive parts of the document. */
  lemma {:induction false} FormsMissingLabelsAppend(a: seq<Tag>, b: seq<Tag>)
    ensures FormsMissingLabels(a + b) == FormsMissingLabels(a) + FormsMissingLabels(b)
    decreases |a|
  {
    if a == [] {
      assert a + b == b;
    } else {
      assert (a + b)[1..] == a[1..] + b;
      FormsMissingLabelsAppend(a[1..], b);
    }
  }

  /**
   * A control with no `aria-label` and no earlier `label` sibling is counted once per
   * enclosing form; giving it a `label` sibling before it removes exactly those counts,
   * and so does giving it a non-empty `aria-label`.
   */
  lemma LabelRemovesControl(before: seq<Tag>, t: Tag, after: seq<Tag>, ariaLabel: string)
    requires MissesLabel(t)
    requires ariaLabel != ""
    ensures FormsMissingLabels(before + [t] + after)
         == FormsMissingLabels(before + [t.(labelBefore := true)] + after) + t.forms
    ensures FormsMissingLabels(before + [t] + after)
         == FormsMissingLabels(before + [t.(attrs := t.attrs["aria-label" := ariaLabel])] + after) + t.forms
  {
    var labelled := t.(labelBefore := true);
    var named := t.(attrs := t.attrs["aria-label" := ariaLabel]);
    FormsMissingLabelsAppend(before + [t], after);
    FormsMissingLabelsAppend(before, [t]);
    FormsMissingLabelsAppend(before + [labelled], after);
    FormsMissingLabelsAppend(before, [labelled]);
    FormsMissingLabelsAppend(before + [named], after);
    FormsMissingLabelsAppend(before, [named]);
    assert [t][1..] == [] && [labelled][1..] == [] && [named][1..] == [];
  }

  /** An anchor whose lower-cased `href` contains "skip". */
  predicate IsSkipLink(t: Tag)
  {
    IsAnchor(t) && Contains(Lower(Href(t)), "skip")
  }

  /** The `href`s of the skip-navigation anchors, in document order. */
  function SkipLinks(tags: seq<Tag>): (r: seq<string>)
    ensures |r| == Count(tags, IsSkipLink)
    ensures forall h :: h in r <==>
      exists t :: t in tags && IsAnchor(t) && t.attrs["href"] == h && Contains(Lower(h), "skip")
  {
    SelectLength(tags, IsSkipLink, Href);
    SelectMembers(tags, IsSkipLink, Href);
    Select(tags, IsSkipLink, Href)
  }

  predicate IsInteractive(t: Tag)
  {
    t.name == "a" || t.name == "button" || t.name == "input"
  }

  /** An interactive element without a `tabindex` attribute; an empty value counts as present. */
  predicate LacksTabindex(t: Tag)
  {
    IsInteractive(t) && Get(t, "tabindex").None?
  }

  function Name(t: Tag): string { t.name }

  /** The tag names of the interactive elements without `tabindex`, in document order. */
  function MissingTabindex(tags: seq<Tag>): (r: seq<string>)
    ensures |r| == Count(tags, LacksTabindex)
    ensures forall n :: n in r ==> n == "a" || n == "button" || n == "input"
    ensures forall t :: t in tags && IsInteractive(t) && "tabindex" !in t.attrs ==> t.name in r
  {
    SelectLength(tags, LacksTabindex, Name);
    SelectMembers(tags, LacksTabindex, Name);
    Select(tags, LacksTabindex, Name)
  }

  /** An inline style that names a colour and a background but not the literal "#ffffff". */
  predicate RisksContrast(t: Tag)
  {
    "style" in t.attrs &&
    var style := Lower(t.attrs["style"]);
    Contains(style, "color") && Contains(style, "background") && !Contains(style, "#ffffff")
  }

  /** The tag names of the elements whose inline style risks poor contrast, in document order. */
  function ContrastIssues(tags: seq<Tag>): (r: seq<string>)
    ensures |r| == Count(tags, RisksContrast)
    ensures forall n :: n in r <==> exists t :: t in tags && RisksContrast(t) && t.name == n
  {
    SelectLength(tags, RisksContrast, Name);
    SelectMembers(tags, RisksContrast, Name);
    Select(tags, RisksContrast, Name)
  }

  /** `check_accessibility`: each list, or its message when the list is empty. */
  function CheckAccessibility(tags: seq<Tag>): (r: AccessibilityReport)
    ensures r.ariaRoles == Message(NoAriaRoles) <==> forall t :: t in tags ==> "role" !in t.attrs
    ensures r.skipNavigationLinks == Message(NoSkipLinks) <==> forall t :: t in tags ==> !IsSkipLink(t)
    ensures r.missingTabindex == Message(AllKeyboardAccessible) <==>
      forall t :: t in tags && IsInteractive(t) ==> "tabindex" in t.attrs
    ensures r.contrastIssues == Message(NoContrastIssues) <==> forall t :: t in tags ==> !RisksContrast(t)
    ensures Entries(r.ariaRoles) == AriaRoles(tags)
    ensures Entries(r.skipNavigationLinks) == SkipLinks(tags)
    ensures Entries(r.missingTabindex) == MissingTabindex(tags)
    ensures Entries(r.contrastIssues) == ContrastIssues(tags)
    ensures r.formsMissingLabels == FormsMissingLabels(tags)
  {
    AccessibilityReport(
      OrMessage(AriaRoles(tags), NoAriaRoles),
      FormsMissingLabels(tags),
      OrMessage(SkipLinks(tags), NoSkipLinks),
      OrMessage(MissingTabindex(tags), AllKeyboardAccessible),
      OrMessage(ContrastIssues(tags), NoContrastIssues))
  }

  /** Every list of the report follows document order: it splits along the document. */
  lemma AccessibilityAppend(a: seq<Tag>, b: seq<Tag>)
    ensures AriaRoles(a + b) == AriaRoles(a) + AriaRoles(b)
    ensures SkipLinks(a + b) == SkipLinks(a) + SkipLinks(b)
    ensures MissingTabindex(a + b) == MissingTabindex(a) + MissingTabindex(b)
    ensures ContrastIssues(a + b) == ContrastIssues(a) + ContrastIssues(b)
    ensures FormsMissingLabels(a + b) == FormsMissingLabels(a) + FormsMissingLabels(b)
  {
    SelectAppend(a, b, HasRole, Role);
    SelectAppend(a, b, IsSkipLink, Href);
    SelectAppend(a, b, LacksTabindex, Name);
    SelectAppend(a, b, RisksContrast, Name);
    FormsMissingLabelsAppend(a, b);
  }
}
