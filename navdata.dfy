/**
  The navigation data of packages/lingua-franca/src/lib/documentationNavigation.ts:
  the language table of `getDocumentationNavForLanguage` and the `en` forest,
  with the facts the page functions rely on (unique ids) and the ones the
  shipped tree promises.

  The forest keeps every id, permalink, `chronological` flag and the nesting of
  the generated constant, and the section titles. Page titles and all
  `oneline` texts are not carried: page titles are empty and `oneline` is
  absent.
*/
module NavData {
  import opened Wrappers
  import opened NavTree

  /** Every permalink of the `en` forest lies under this path. */
  const Handbook: string := "/docs/handbook/"

  /** A handbook page: a leaf with an id and the permalink `Handbook + slug`. */
  function HandbookPage(id: string, slug: string): NavItem {
    NavItem("", id, Some(Handbook + slug), None, None, Absent)
  }

  /** The pages of a section, given as (id, slug) pairs in their order. */
  function Pages(ps: seq<(string, string)>): (r: seq<NavItem>)
    ensures |r| == |ps|
    ensures forall c :: c in r ==> c.items.Absent? && c.permalink.Some? && Handbook <= c.permalink.value
  {
    var r := seq(|ps|, k requires 0 <= k < |ps| => HandbookPage(ps[k].0, ps[k].1));
    assert forall k :: 0 <= k < |ps| ==> Handbook <= r[k].permalink.value by {
      forall k | 0 <= k < |ps| ensures Handbook <= r[k].permalink.value {
        assert r[k].permalink.value == Handbook + ps[k].1;
      }
    }
    r
  }

  /** A top-level section: it has no permalink and sets `chronological`. */
  function Section(title: string, id: string, chronological: bool, ps: seq<(string, string)>): (r: NavItem)
    ensures r.id == id && r.permalink.None? && r.items.Present? && (IsChronological(r) <==> chronological)
  {
    NavItem(title, id, None, Some(chronological), None, Present(Pages(ps)))
  }

  /** The pages of "Resources" (documentationNavigation.ts, lines 28-48). */
  const ResourcesPages: seq<(string, string)> := [
    ("0-overview", "overview"),
    ("0-tutorial-video", "tutorial-video")
  ]

  const Resources: NavItem := Section("Resources", "resources", true, ResourcesPages)

  /** The pages of "Writing Reactors" (documentationNavigation.ts, lines 49-147). */
  const WritingReactorsPages: seq<(string, string)> := [
    ("1-a-first-reactor", "a-first-reactor"),
    ("1-inputs-and-outputs", "inputs-and-outputs"),
    ("1-parameters-and-state-variables", "parameters-and-state-variables"),
    ("1-time-and-timers", "time-and-timers"),
    ("1-composing-reactors", "composing-reactors"),
    ("1-reactions-and-methods", "reactions-and-methods"),
    ("1-causality-loops", "causality-loops"),
    ("1-extending-reactors", "extending-reactors"),
    ("1-actions", "actions"),
    ("1-superdense-time", "superdense-time"),
    ("1-deadlines", "deadlines"),
    ("1-multiports-and-banks", "multiports-and-banks"),
    ("1-preambles-and-methods", "preambles-and-methods"),
    ("1-distributed-execution", "distributed-execution"),
    ("1-termination", "termination")
  ]

  const WritingReactors: NavItem := Section("Writing Reactors", "writing-reactors", true, WritingReactorsPages)

  /** The pages of "Tools" (documentationNavigation.ts, lines 148-174). */
  const ToolsPages: seq<(string, string)> := [
    ("2-code-plugin", "code-plugin"),
    ("2-epoch-ide", "epoch-ide"),
    ("2-command-line-tools", "command-line-tools")
  ]

  const Tools: NavItem := Section("Tools", "tools", true, ToolsPages)

  /** The pages of "Reference" (documentationNavigation.ts, lines 175-208). */
  const ReferencePages: seq<(string, string)> := [
    ("3-expressions", "expressions"),
    ("3-target-language-reference", "target-language-reference"),
    ("3-target-declaration", "target-declaration"),
    ("3-tracing", "tracing")
  ]

  const Reference: NavItem := Section("Reference", "reference", true, ReferencePages)

  /** The pages of "Developer" (documentationNavigation.ts, lines 209-254). */
  const DeveloperPages: seq<(string, string)> := [
    ("4-regression-tests", "regression-tests"),
    ("4-contributing", "contributing"),
    ("4-downloading-and-building", "download"),
    ("4-developer-eclipse-setup-with-oomph", "eclipse-oomph"),
    ("4-developer-intellij-setup-(for-kotlin)", "intellij-kotlin"),
    ("4-running-benchmarks", "running-benchmarks")
  ]

  const Developer: NavItem := Section("Developer", "developer", true, DeveloperPages)

  /** The pages of "Preliminary Development" (documentationNavigation.ts, lines 255-287). */
  const PreliminaryDevelopmentPages: seq<(string, string)> := [
    ("5-containerized-execution", "containerized-execution"),
    ("5-generic-types,-interfaces,-and-inheritance", "generic-types-interfaces-inheritance"),
    ("5-target-supported-features", "features"),
    ("5-reactors-on-patmos", "reactors-on-patmos")
  ]

  const PreliminaryDevelopment: NavItem := Section("Preliminary Development", "preliminary-development", false, PreliminaryDevelopmentPages)

  /** The pages of "Less Developed Topics" (documentationNavigation.ts, lines 288-332). */
  const LessDevelopedTopicsPages: seq<(string, string)> := [
    ("6-logical-execution-time", "logical-execution-time"),
    ("6-tools", "tools"),
    ("6-timing-analysis", "timing-analysis"),
    ("6-related-work", "related-work"),
    ("6-future-proof-package/import-system", "proof-import"),
    ("6-rfc:-modal-models-(draft-i)", "rfc-modal")
  ]

  const LessDevelopedTopics: NavItem := Section("Less Developed Topics", "less-developed-topics", false, LessDevelopedTopicsPages)

  /** The forest assigned to `navigations.en`. */
  function En(): (r: seq<NavItem>)
    ensures |r| == 7
    ensures forall k :: 0 <= k < 7 ==> r[k].permalink.None? && r[k].items.Present? && (IsChronological(r[k]) <==> k < 5)
    ensures forall k, c :: 0 <= k < 7 && c in Children(r[k]) ==>
      c.items.Absent? && c.permalink.Some? && Handbook <= c.permalink.value
  {
    [Resources, WritingReactors, Tools, Reference, Developer, PreliminaryDevelopment, LessDevelopedTopics]
  }

  /** The languages that have a navigation of their own. */
  const Langs: seq<string> := ["en"]

  /** `getDocumentationNavForLanguage`: a language without a navigation of its
      own falls back to "en"; "en" is the only one, so every key yields `En()`. */
  function GetDocumentationNavForLanguage(langRequest: string): (r: seq<NavItem>)
    ensures r == En()
  {
    var lang := if langRequest in Langs then langRequest else "en";
    var navigations := map["en" := En()];
    navigations[lang]
  }

  /** Every language key yields the same forest as "en". */
  lemma {:induction false} UnknownLanguageFallsBack(langRequest: string)
    ensures GetDocumentationNavForLanguage(langRequest) == GetDocumentationNavForLanguage("en")
  {
  }

  // ---------------------------------------------------------------------------
  // Unique ids in the "en" forest
  // ---------------------------------------------------------------------------

  /** The digit of a page id of the form "<digit>-...", or -1. The generated
      page ids carry the position of their section as this digit. */
  function PageTag(id: string): int {
    if |id| >= 2 && '0' <= id[0] <= '9' && id[1] == '-' then id[0] as int - '0' as int else -1
  }

  /** From position `i` on, every entry's id (its first component) carries tag
      `t` (written recursively so that Dafny can evaluate it on the constants). */
  predicate TaggedFrom(ps: seq<(string, string)>, t: int, i: nat)
    decreases |ps| - i
  {
    i >= |ps| || (PageTag(ps[i].0) == t && TaggedFrom(ps, t, i + 1))
  }

  /** No entry from position `i` on has id `x`. */
  predicate AbsentFrom(x: string, ps: seq<(string, string)>, i: nat)
    decreases |ps| - i
  {
    i >= |ps| || (ps[i].0 != x && AbsentFrom(x, ps, i + 1))
  }

  /** The entries from position `i` on have distinct ids. */
  predicate DistinctFrom(ps: seq<(string, string)>, i: nat)
    decreases |ps| - i
  {
    i >= |ps| || (AbsentFrom(ps[i].0, ps, i + 1) && DistinctFrom(ps, i + 1))
  }

  lemma {:induction false} TaggedFromMeaning(ps: seq<(string, string)>, t: int, i: nat)
    requires TaggedFrom(ps, t, i)
    ensures forall k :: i <= k < |ps| ==> PageTag(ps[k].0) == t
    decreases |ps| - i
  {
    if i < |ps| { TaggedFromMeaning(ps, t, i + 1); }
  }

  lemma {:induction false} AbsentFromMeaning(x: string, ps: seq<(string, string)>, i: nat)
    requires AbsentFrom(x, ps, i)
    ensures forall k :: i <= k < |ps| ==> ps[k].0 != x
    decreases |ps| - i
  {
    if i < |ps| { AbsentFromMeaning(x, ps, i + 1); }
  }

  lemma {:induction false} DistinctFromMeaning(ps: seq<(string, string)>, i: nat)
    requires DistinctFrom(ps, i)
    ensures forall a, b :: i <= a < b < |ps| ==> ps[a].0 != ps[b].0
    decreases |ps| - i
  {
    if i < |ps| {
      AbsentFromMeaning(ps[i].0, ps, i + 1);
      DistinctFromMeaning(ps, i + 1);
    }
  }


  /** A section whose pages are leaves with distinct ids tagged `t`, while the
      section's own id carries no tag. */
  ghost predicate TaggedSection(s: NavItem, t: int) {
    && PageTag(s.id) == -1
    && s.items.Present?
    && DistinctIds(s.items.list)
    && forall c :: c in s.items.list ==> c.items.Absent? && PageTag(c.id) == t
  }


  /** The evaluated checks establish `TaggedSection`. */
  lemma {:induction false} CheckedSection(title: string, id: string, chronological: bool, ps: seq<(string, string)>, t: int)
    requires PageTag(id) == -1
    requires TaggedFrom(ps, t, 0) && DistinctFrom(ps, 0)
    ensures TaggedSection(Section(title, id, chronological, ps), t)
  {
    TaggedFromMeaning(ps, t, 0);
    DistinctFromMeaning(ps, 0);
    var cs := Pages(ps);
    assert forall k :: 0 <= k < |cs| ==> cs[k].id == ps[k].0;
  }

  /** The pre-order of a list of leaves is the list itself. */
  lemma {:induction false} LeafPreOrder(cs: seq<NavItem>)
    requires forall c :: c in cs ==> c.items.Absent?
    ensures PreOrder(cs) == cs
    decreases cs
  {
    if cs != [] {
      LeafPreOrder(cs[1..]);
      assert PreOrderItem(cs[0]) == [cs[0]];
    }
  }


  lemma {:induction false} DistinctIdsJoin(a: seq<NavItem>, b: seq<NavItem>)
    requires DistinctIds(a) && DistinctIds(b)
    requires forall x, y :: x in a && y in b ==> x.id != y.id
    ensures DistinctIds(a + b)
  {
    forall i, j | 0 <= i < j < |a + b| ensures (a + b)[i].id != (a + b)[j].id {
      if j < |a| {
        assert (a + b)[i] == a[i] && (a + b)[j] == a[j];
      } else if i >= |a| {
        assert (a + b)[i] == b[i - |a|] && (a + b)[j] == b[j - |a|];
      } else {
        assert (a + b)[i] == a[i] && (a + b)[j] == b[j - |a|];
      }
    }
  }

  /** The sections of `f` are tagged `base`, `base + 1`, ... in order. */
  ghost predicate TaggedSectionsFrom(f: seq<NavItem>, base: nat)
    decreases f
  {
    f == [] || (TaggedSection(f[0], base) && TaggedSectionsFrom(f[1..], base + 1))
  }

  /** A forest of tagged sections with distinct section ids has unique ids
      throughout; only the sections themselves carry no tag. */
  lemma {:induction false} TaggedForestDistinct(f: seq<NavItem>, base: nat)
    requires TaggedSectionsFrom(f, base)
    requires forall i, j :: 0 <= i < j < |f| ==> f[i].id != f[j].id
    ensures DistinctIds(PreOrder(f))
    ensures forall y :: y in PreOrder(f) ==>
      if PageTag(y.id) == -1 then y in f else PageTag(y.id) >= base
    decreases f
  {
    if f != [] {
      var h := f[0];
      var cs := h.items.list;
      var rest := f[1..];
      LeafPreOrder(cs);
      assert PreOrderItem(h) == [h] + cs;
      assert PreOrder(f) == PreOrderItem(h) + PreOrder(rest);
      assert forall k :: 0 <= k < |rest| ==> rest[k] == f[k + 1];
      TaggedForestDistinct(rest, base + 1);
      DistinctIdsJoin([h], cs);
      forall x, y | x in PreOrderItem(h) && y in PreOrder(rest) ensures x.id != y.id {
        if PageTag(y.id) == -1 {
          var m :| 0 <= m < |rest| && rest[m] == y;
          assert f[m + 1] == y;
          if x != h {
            assert x in cs;
          }
        }
      }
      DistinctIdsJoin(PreOrderItem(h), PreOrder(rest));
    }
  }


  /** The pages of "Resources" are leaves with distinct ids tagged 0. */
  lemma ResourcesTagged() ensures TaggedSection(Resources, 0) {
    assert TaggedFrom(ResourcesPages, 0, 0);
    assert DistinctFrom(ResourcesPages, 0);
    CheckedSection("Resources", "resources", true, ResourcesPages, 0);
  }

  // The checks on "Writing Reactors": from position 10 on at once, then one position at a time towards the front.
  lemma WritingReactorsFrom10() ensures TaggedFrom(WritingReactorsPages, 1, 10) && DistinctFrom(WritingReactorsPages, 10) {}

  lemma WritingReactorsFrom9() ensures TaggedFrom(WritingReactorsPages, 1, 9) && DistinctFrom(WritingReactorsPages, 9) {
    WritingReactorsFrom10();
  }

  lemma WritingReactorsFrom8() ensures TaggedFrom(WritingReactorsPages, 1, 8) && DistinctFrom(WritingReactorsPages, 8) {
    WritingReactorsFrom9();
  }

  lemma WritingReactorsFrom7() ensures TaggedFrom(WritingReactorsPages, 1, 7) && DistinctFrom(WritingReactorsPages, 7) {
    WritingReactorsFrom8();
  }

  lemma WritingReactorsFrom6() ensures TaggedFrom(WritingReactorsPages, 1, 6) && DistinctFrom(WritingReactorsPages, 6) {
    WritingReactorsFrom7();
  }

  lemma WritingReactorsFrom5() ensures TaggedFrom(WritingReactorsPages, 1, 5) && DistinctFrom(WritingReactorsPages, 5) {
    WritingReactorsFrom6();
  }

  lemma WritingReactorsFrom4() ensures TaggedFrom(WritingReactorsPages, 1, 4) && DistinctFrom(WritingReactorsPages, 4) {
    WritingReactorsFrom5();
  }

  lemma WritingReactorsFrom3() ensures TaggedFrom(WritingReactorsPages, 1, 3) && DistinctFrom(WritingReactorsPages, 3) {
    WritingReactorsFrom4();
  }

  lemma WritingReactorsFrom2() ensures TaggedFrom(WritingReactorsPages, 1, 2) && DistinctFrom(WritingReactorsPages, 2) {
    WritingReactorsFrom3();
  }

  lemma WritingReactorsFrom1() ensures TaggedFrom(WritingReactorsPages, 1, 1) && DistinctFrom(WritingReactorsPages, 1) {
    WritingReactorsFrom2();
  }

  lemma WritingReactorsFrom0() ensures TaggedFrom(WritingReactorsPages, 1, 0) && DistinctFrom(WritingReactorsPages, 0) {
    WritingReactorsFrom1();
  }

  /** The pages of "Writing Reactors" are leaves with distinct ids tagged 1. */
  lemma WritingReactorsTagged() ensures TaggedSection(WritingReactors, 1) {
    WritingReactorsFrom0();
    CheckedSection("Writing Reactors", "writing-reactors", true, WritingReactorsPages, 1);
  }

  /** The pages of "Tools" are leaves with distinct ids tagged 2. */
  lemma ToolsTagged() ensures TaggedSection(Tools, 2) {
    assert TaggedFrom(ToolsPages, 2, 0);
    assert DistinctFrom(ToolsPages, 0);
    CheckedSection("Tools", "tools", true, ToolsPages, 2);
  }

  /** The pages of "Reference" are leaves with distinct ids tagged 3. */
  lemma ReferenceTagged() ensures TaggedSection(Reference, 3) {
    assert TaggedFrom(ReferencePages, 3, 0);
    assert DistinctFrom(ReferencePages, 0);
    CheckedSection("Reference", "reference", true, ReferencePages, 3);
  }

  // The checks on "Developer": from position 3 on at once, then one position at a time towards the front.
  lemma DeveloperFrom3() ensures TaggedFrom(DeveloperPages, 4, 3) && DistinctFrom(DeveloperPages, 3) {}

  lemma DeveloperFrom2() ensures TaggedFrom(DeveloperPages, 4, 2) && DistinctFrom(DeveloperPages, 2) {
    DeveloperFrom3();
  }

  lemma DeveloperFrom1() ensures TaggedFrom(DeveloperPages, 4, 1) && DistinctFrom(DeveloperPages, 1) {
    DeveloperFrom2();
  }

  lemma DeveloperFrom0() ensures TaggedFrom(DeveloperPages, 4, 0) && DistinctFrom(DeveloperPages, 0) {
    DeveloperFrom1();
  }

  /** The pages of "Developer" are leaves with distinct ids tagged 4. */
  lemma DeveloperTagged() ensures TaggedSection(Developer, 4) {
    DeveloperFrom0();
    CheckedSection("Developer", "developer", true, DeveloperPages, 4);
  }

  // The checks on "Preliminary Development": from position 3 on at once, then one position at a time towards the front.
  lemma PreliminaryDevelopmentFrom3() ensures TaggedFrom(PreliminaryDevelopmentPages, 5, 3) && DistinctFrom(PreliminaryDevelopmentPages, 3) {}

  lemma PreliminaryDevelopmentFrom2() ensures TaggedFrom(PreliminaryDevelopmentPages, 5, 2) && DistinctFrom(PreliminaryDevelopmentPages, 2) {
    PreliminaryDevelopmentFrom3();
  }

  lemma PreliminaryDevelopmentFrom1() ensures TaggedFrom(PreliminaryDevelopmentPages, 5, 1) && DistinctFrom(PreliminaryDevelopmentPages, 1) {
    PreliminaryDevelopmentFrom2();
  }

  lemma PreliminaryDevelopmentFrom0() ensures TaggedFrom(PreliminaryDevelopmentPages, 5, 0) && DistinctFrom(PreliminaryDevelopmentPages, 0) {
    PreliminaryDevelopmentFrom1();
  }

  /** The pages of "Preliminary Development" are leaves with distinct ids tagged 5. */
  lemma PreliminaryDevelopmentTagged() ensures TaggedSection(PreliminaryDevelopment, 5) {
    PreliminaryDevelopmentFrom0();
    CheckedSection("Preliminary Development", "preliminary-development", false, PreliminaryDevelopmentPages, 5);
  }

  // The checks on "Less Developed Topics": from position 4 on at once, then one position at a time towards the front.
  lemma LessDevelopedTopicsFrom4() ensures TaggedFrom(LessDevelopedTopicsPages, 6, 4) && DistinctFrom(LessDevelopedTopicsPages, 4) {}

  lemma LessDevelopedTopicsFrom3() ensures TaggedFrom(LessDevelopedTopicsPages, 6, 3) && DistinctFrom(LessDevelopedTopicsPages, 3) {
    LessDevelopedTopicsFrom4();
  }

  lemma LessDevelopedTopicsFrom2() ensures TaggedFrom(LessDevelopedTopicsPages, 6, 2) && DistinctFrom(LessDevelopedTopicsPages, 2) {
    LessDevelopedTopicsFrom3();
  }

  lemma LessDevelopedTopicsFrom1() ensures TaggedFrom(LessDevelopedTopicsPages, 6, 1) && DistinctFrom(LessDevelopedTopicsPages, 1) {
    LessDevelopedTopicsFrom2();
  }

  lemma LessDevelopedTopicsFrom0() ensures TaggedFrom(LessDevelopedTopicsPages, 6, 0) && DistinctFrom(LessDevelopedTopicsPages, 0) {
    LessDevelopedTopicsFrom1();
  }

  /** The pages of "Less Developed Topics" are leaves with distinct ids tagged 6. */
  lemma LessDevelopedTopicsTagged() ensures TaggedSection(LessDevelopedTopics, 6) {
    LessDevelopedTopicsFrom0();
    CheckedSection("Less Developed Topics", "less-developed-topics", false, LessDevelopedTopicsPages, 6);
  }

  /** Seven tagged sections in a row form a forest tagged from 0. */
  lemma {:induction false} SevenSections(a: NavItem, b: NavItem, c: NavItem, d: NavItem, e: NavItem, g: NavItem, h: NavItem)
    requires TaggedSection(a, 0) && TaggedSection(b, 1) && TaggedSection(c, 2) && TaggedSection(d, 3)
    requires TaggedSection(e, 4) && TaggedSection(g, 5) && TaggedSection(h, 6)
    ensures TaggedSectionsFrom([a, b, c, d, e, g, h], 0)
  {
    assert TaggedSectionsFrom([h], 6) by { assert [h][1..] == []; }
    assert TaggedSectionsFrom([g, h], 5) by { assert [g, h][1..] == [h]; }
    assert TaggedSectionsFrom([e, g, h], 4) by { assert [e, g, h][1..] == [g, h]; }
    assert TaggedSectionsFrom([d, e, g, h], 3) by { assert [d, e, g, h][1..] == [e, g, h]; }
    assert TaggedSectionsFrom([c, d, e, g, h], 2) by { assert [c, d, e, g, h][1..] == [d, e, g, h]; }
    assert TaggedSectionsFrom([b, c, d, e, g, h], 1) by { assert [b, c, d, e, g, h][1..] == [c, d, e, g, h]; }
    assert [a, b, c, d, e, g, h][1..] == [b, c, d, e, g, h];
  }


  /** The ids of the seven sections, in order, each paired with its title. */
  const SectionKeys: seq<(string, string)> := [("resources", "Resources"), ("writing-reactors", "Writing Reactors"), ("tools", "Tools"), ("reference", "Reference"), ("developer", "Developer"), ("preliminary-development", "Preliminary Development"), ("less-developed-topics", "Less Developed Topics")]

  lemma SectionKeysDistinct() ensures DistinctFrom(SectionKeys, 0) {
    assert DistinctFrom(SectionKeys, 4);
    assert DistinctFrom(SectionKeys, 2);
  }

  /** The seven sections of the "en" forest have distinct ids. */
  lemma SectionIdsDistinct()
    ensures forall i, j :: 0 <= i < j < |En()| ==> En()[i].id != En()[j].id
  {
    SectionKeysDistinct();
    DistinctFromMeaning(SectionKeys, 0);
    var f := En();
    assert f[0].id == SectionKeys[0].0 && f[1].id == SectionKeys[1].0 && f[2].id == SectionKeys[2].0;
    assert f[3].id == SectionKeys[3].0 && f[4].id == SectionKeys[4].0;
    assert f[5].id == SectionKeys[5].0 && f[6].id == SectionKeys[6].0;
  }


  /** All ids of the "en" forest are unique. */
  lemma EnIdsDistinct()
    ensures DistinctIds(PreOrder(En()))
  {
    ResourcesTagged();
    WritingReactorsTagged();
    ToolsTagged();
    ReferenceTagged();
    DeveloperTagged();
    PreliminaryDevelopmentTagged();
    LessDevelopedTopicsTagged();
    SevenSections(Resources, WritingReactors, Tools, Reference, Developer, PreliminaryDevelopment, LessDevelopedTopics);
    SectionIdsDistinct();
    TaggedForestDistinct(En(), 0);
  }

  // ---------------------------------------------------------------------------
  // Page links in the "en" forest
  // ---------------------------------------------------------------------------

  /** The non-chronological section "Preliminary Development" gives none of its
      pages a previous or a next page. */
  lemma PreliminaryDevelopmentHasNoNeighbours()
    ensures forall c :: c in PreliminaryDevelopment.items.list ==>
      GetNextPageID(En(), c.id) == NoPage && GetPreviousPageID(En(), c.id) == NoPage
  {
    EnIdsDistinct();
    NonChronologicalRootIsolated(En(), 5);
  }

  /** The non-chronological section "Less Developed Topics" gives none of its
      pages a previous or a next page. */
  lemma LessDevelopedTopicsHasNoNeighbours()
    ensures forall c :: c in LessDevelopedTopics.items.list ==>
      GetNextPageID(En(), c.id) == NoPage && GetPreviousPageID(En(), c.id) == NoPage
  {
    EnIdsDistinct();
    NonChronologicalRootIsolated(En(), 6);
  }

  /** Inside "Resources" the overview links forward to the tutorial video. */
  lemma OverviewLinksForward()
    ensures GetNextPageID(En(), "0-overview") ==
      Page(Some(Handbook + "tutorial-video"), Resources.items.list[1])
  {
    EnIdsDistinct();
    RootInPreOrder(En(), 0);
    NextPageOfChild(En(), Resources, 0);
  }

  /** Inside "Resources" the tutorial video links back to the overview. */
  lemma TutorialVideoLinksBack()
    ensures GetPreviousPageID(En(), "0-tutorial-video") ==
      Page(Some(Handbook + "overview"), Resources.items.list[0])
  {
    EnIdsDistinct();
    RootInPreOrder(En(), 0);
    PreviousPageOfChild(En(), Resources, 1);
  }

  /** The last page of "Resources" has no next page: nothing wraps into
      "Writing Reactors". */
  lemma TutorialVideoIsLast()
    ensures GetNextPageID(En(), "0-tutorial-video") == NoPage
  {
    EnIdsDistinct();
    RootInPreOrder(En(), 0);
    NextPageOfChild(En(), Resources, 1);
  }

  /** The first page of "Writing Reactors" has no previous page: nothing wraps
      back into "Resources". */
  lemma FirstReactorIsFirst()
    ensures GetPreviousPageID(En(), "1-a-first-reactor") == NoPage
  {
    EnIdsDistinct();
    RootInPreOrder(En(), 1);
    PreviousPageOfChild(En(), WritingReactors, 0);
  }
}
