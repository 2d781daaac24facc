/**
  The documentation sidebar tree of packages/lingua-franca/src/lib/documentationNavigation.ts:
  the `SidebarNavItem` record, the depth-first search `findInNav`, and the
  previous/next page computation built on it.
*/
module NavTree {
  import opened Wrappers

  /** The optional `items` property. It has its own datatype (rather than
      `Option<seq<NavItem>>`) so that Dafny sees each child as smaller than its
      parent. A present but empty list is still `Present` (an empty array is
      truthy in the source). */
  datatype ItemList = Absent | Present(list: seq<NavItem>)

  /** One sidebar entry (`SidebarNavItem`): a section or a page. */
  datatype NavItem = NavItem(
    title: string,
    id: string,
    permalink: Option<string>,
    chronological: Option<bool>,
    oneline: Option<string>,
    items: ItemList)

  /** The direct children of a node; none when `items` is absent. */
  function Children(n: NavItem): seq<NavItem> {
    if n.items.Present? then n.items.list else []
  }

  /** `section.chronological` is truthy only when it is present and true. */
  predicate IsChronological(n: NavItem) {
    n.chronological == Some(true)
  }

  // ---------------------------------------------------------------------------
  // Pre-order flattening: the independent description of the search order
  // ---------------------------------------------------------------------------

  /** Every node of a forest, each parent before its children, siblings in
      array order. */
  function PreOrder(forest: seq<NavItem>): seq<NavItem>
    decreases forest
  {
    if forest == [] then [] else PreOrderItem(forest[0]) + PreOrder(forest[1..])
  }

  /** A node followed by the pre-order of its children. */
  function PreOrderItem(n: NavItem): seq<NavItem>
    decreases n
  {
    [n] + (if n.items.Present? then PreOrder(n.items.list) else [])
  }

  /** The first element of `s` that satisfies `p`, as `Array.prototype.find`
      returns it. */
  function FirstMatch(s: seq<NavItem>, p: NavItem -> bool): (r: Option<NavItem>)
    ensures r.Some? ==> exists k :: 0 <= k < |s| && s[k] == r.value && p(s[k]) &&
                                    forall j :: 0 <= j < k ==> !p(s[j])
    ensures r.None? ==> forall k :: 0 <= k < |s| ==> !p(s[k])
  {
    if s == [] then None
    else if p(s[0]) then Some(s[0])
    else
      var r := FirstMatch(s[1..], p);
      assert r.Some? ==> exists k :: 1 <= k < |s| && s[k] == r.value && p(s[k]) &&
                                     forall j :: 0 <= j < k ==> !p(s[j]) by {
        if r.Some? {
          var k :| 0 <= k < |s[1..]| && s[1..][k] == r.value && p(s[1..][k]) &&
                   forall j :: 0 <= j < k ==> !p(s[1..][j]);
          assert forall j :: 0 <= j < k + 1 ==> !p(s[j]) by {
            forall j | 0 <= j < k + 1 ensures !p(s[j]) {
              if j > 0 { assert s[j] == s[1..][j - 1]; }
            }
          }
        }
      }
      r
  }

  // ---------------------------------------------------------------------------
  // findInNav
  // ---------------------------------------------------------------------------

  /** `findInNav` applied to an array: the subtrees are searched in order and the
      first hit is returned. The result satisfies `p` and occurs in the forest;
      no result means no node of the forest satisfies `p`. */
  function FindInForest(forest: seq<NavItem>, p: NavItem -> bool): (r: Option<NavItem>)
    ensures r.Some? ==> p(r.value) && r.value in PreOrder(forest)
    ensures r.None? ==> forall x :: x in PreOrder(forest) ==> !p(x)
    decreases forest
  {
    if forest == [] then None
    else
      match FindInItem(forest[0], p)
      case Some(sub) => Some(sub)
      case None => FindInForest(forest[1..], p)
  }

  /** `findInNav` applied to one node: the node itself is tested before its
      `items` are searched. */
  function FindInItem(item: NavItem, p: NavItem -> bool): (r: Option<NavItem>)
    ensures r.Some? ==> p(r.value) && r.value in PreOrderItem(item)
    ensures r.None? ==> forall x :: x in PreOrderItem(item) ==> !p(x)
    decreases item
  {
    if p(item) then Some(item)
    else if item.items.Absent? then None
    else FindInForest(item.items.list, p)
  }

  /** Finding the first of two halves: the second half is searched only when the
      first has no match. */
  lemma {:induction false} FirstMatchAppend(a: seq<NavItem>, b: seq<NavItem>, p: NavItem -> bool)
    ensures FirstMatch(a + b, p) == if FirstMatch(a, p).Some? then FirstMatch(a, p) else FirstMatch(b, p)
    decreases a
  {
    if a == [] {
      assert a + b == b;
    } else {
      assert (a + b)[0] == a[0];
      assert (a + b)[1..] == a[1..] + b;
      FirstMatchAppend(a[1..], b, p);
    }
  }

  /** `findInNav` over a forest returns the first node, in pre-order, that
      satisfies the predicate. */
  lemma {:induction false} FindInForestIsFirstInPreOrder(forest: seq<NavItem>, p: NavItem -> bool)
    ensures FindInForest(forest, p) == FirstMatch(PreOrder(forest), p)
    decreases forest
  {
    if forest != [] {
      FindInItemIsFirstInPreOrder(forest[0], p);
      FindInForestIsFirstInPreOrder(forest[1..], p);
      FirstMatchAppend(PreOrderItem(forest[0]), PreOrder(forest[1..]), p);
    }
  }

  /** `findInNav` over one node returns the first node of its subtree, in
      pre-order, that satisfies the predicate. */
  lemma {:induction false} FindInItemIsFirstInPreOrder(item: NavItem, p: NavItem -> bool)
    ensures FindInItem(item, p) == FirstMatch(PreOrderItem(item), p)
    decreases item
  {
    var rest := if item.items.Present? then PreOrder(item.items.list) else [];
    assert PreOrderItem(item) == [item] + rest;
    FirstMatchAppend([item], rest, p);
    if item.items.Present? {
      FindInForestIsFirstInPreOrder(item.items.list, p);
    }
  }

  // ---------------------------------------------------------------------------
  // getNextPageID / getPreviousPageID
  // ---------------------------------------------------------------------------

  /** `items.find(i => i.id === currentID)` succeeds. */
  predicate HasChild(items: seq<NavItem>, id: string) {
    exists k :: 0 <= k < |items| && items[k].id == id
  }

  /** The predicate both page functions hand to `findInNav`: the node has `items`
      and one of them carries the id. */
  function ContainsChild(id: string): NavItem -> bool {
    (i: NavItem) => i.items.Present? && HasChild(i.items.list, id)
  }

  /** The section that owns a page: the first node, in pre-order, whose direct
      `items` hold the id. */
  function EnclosingSection(navs: seq<NavItem>, id: string): (r: Option<NavItem>)
    ensures r.Some? ==> r.value in PreOrder(navs) && r.value.items.Present? && HasChild(r.value.items.list, id)
    ensures r.None? ==> forall x :: x in PreOrder(navs) ==> !(x.items.Present? && HasChild(x.items.list, id))
  {
    FindInForest(navs, ContainsChild(id))
  }

  /** `Array.prototype.findIndex` by id: the first position holding the id, or -1. */
  function FindIndex(items: seq<NavItem>, id: string): (r: int)
    ensures -1 <= r < |items|
    ensures r == -1 <==> !HasChild(items, id)
    ensures r >= 0 ==> items[r].id == id && forall j :: 0 <= j < r ==> items[j].id != id
  {
    if items == [] then -1
    else if items[0].id == id then 0
    else
      var k := FindIndex(items[1..], id);
      assert forall j :: 1 <= j < |items| ==> items[j] == items[1..][j - 1];
      if k == -1 then -1 else k + 1
  }

  /** What the two page functions return: `undefined`, the object
      `{ path, ...item }`, or the TypeError raised when the next sibling has an
      empty `items` list (`next.items[0].permalink` reads through `undefined`). */
  datatype Neighbour = NoPage | Page(path: Option<string>, item: NavItem) | Fault

  /** The link target of a next sibling: a container is entered at its first
      child, which must exist. The path is the permalink of the sibling itself
      when it is a page, and of the node right after it in pre-order when it is
      a container. */
  function NextTarget(next: NavItem): (r: Neighbour)
    ensures !r.NoPage?
    ensures r.Fault? <==> next.items == Present([])
    ensures r.Page? ==> r.item == next
    ensures r.Page? && next.items.Absent? ==> r.path == next.permalink
    ensures r.Page? && next.items.Present? ==>
      |PreOrderItem(next)| > 1 && r.path == PreOrderItem(next)[1].permalink
  {
    match next.items
    case Present(sub) =>
      if |sub| > 0 then
        assert PreOrder(sub) == PreOrderItem(sub[0]) + PreOrder(sub[1..]);
        assert PreOrderItem(next)[1] == PreOrder(sub)[0] == sub[0];
        Page(sub[0].permalink, next)
      else Fault
    case Absent => Page(next.permalink, next)
  }

  /** `getNextPageID`. */
  function GetNextPageID(navs: seq<NavItem>, currentID: string): (r: Neighbour)
    ensures r.Page? ==> r.item in PreOrder(navs)
  {
    match EnclosingSection(navs, currentID)
    case None => NoPage
    case Some(section) =>
      if !IsChronological(section) then NoPage
      else if section.items.Absent? then NoPage
      else
        var items := section.items.list;
        var currentIndex := FindIndex(items, currentID);
        if currentIndex + 1 < |items| then
          var next := items[currentIndex + 1];
          ChildInPreOrder(navs, section, next);
          NextTarget(next)
        else NoPage
  }

  /** `getPreviousPageID`: the previous sibling is returned as it is, even when
      it is a container. */
  function GetPreviousPageID(navs: seq<NavItem>, currentID: string): (r: Neighbour)
    ensures !r.Fault?
    ensures r.Page? ==> r.item in PreOrder(navs) && r.path == r.item.permalink
  {
    match EnclosingSection(navs, currentID)
    case None => NoPage
    case Some(section) =>
      if !IsChronological(section) then NoPage
      else if section.items.Absent? then NoPage
      else
        var items := section.items.list;
        var currentIndex := FindIndex(items, currentID);
        if 0 <= currentIndex - 1 < |items| then
          var prev := items[currentIndex - 1];
          ChildInPreOrder(navs, section, prev);
          Page(prev.permalink, prev)
        else NoPage
  }

  // ---------------------------------------------------------------------------
  // Structure of the pre-order
  // ---------------------------------------------------------------------------

  /** No two nodes of the sequence share an id. */
  ghost predicate DistinctIds(s: seq<NavItem>) {
    forall i, j :: 0 <= i < j < |s| ==> s[i].id != s[j].id
  }

  lemma {:induction false} DistinctIdsSplit(a: seq<NavItem>, b: seq<NavItem>)
    requires DistinctIds(a + b)
    ensures DistinctIds(a) && DistinctIds(b)
    ensures forall x, y :: x in a && y in b ==> x.id != y.id
  {
    assert forall i :: 0 <= i < |a| ==> (a + b)[i] == a[i];
    assert forall j :: 0 <= j < |b| ==> (a + b)[|a| + j] == b[j];
    forall x, y | x in a && y in b ensures x.id != y.id {
      var i :| 0 <= i < |a| && a[i] == x;
      var j :| 0 <= j < |b| && b[j] == y;
      assert (a + b)[i] == x && (a + b)[|a| + j] == y;
    }
  }

  /** A node of a forest's pre-order lies in the subtree of one of its roots. */
  lemma {:induction false} PreOrderMember(f: seq<NavItem>, x: NavItem) returns (m: nat)
    requires x in PreOrder(f)
    ensures m < |f| && x in PreOrderItem(f[m])
    decreases f
  {
    if x in PreOrderItem(f[0]) {
      m := 0;
    } else {
      var m' := PreOrderMember(f[1..], x);
      m := m' + 1;
    }
  }

  /** Every node of a root's subtree is in the forest's pre-order. */
  lemma {:induction false} PreOrderSegment(f: seq<NavItem>, m: nat, y: NavItem)
    requires m < |f| && y in PreOrderItem(f[m])
    ensures y in PreOrder(f)
    decreases f
  {
    if m > 0 {
      assert f[1..][m - 1] == f[m];
      PreOrderSegment(f[1..], m - 1, y);
    }
  }

  /** Every root of a forest is in its pre-order. */
  lemma {:induction false} RootInPreOrder(f: seq<NavItem>, m: nat)
    requires m < |f|
    ensures f[m] in PreOrder(f)
  {
    PreOrderSegment(f, m, f[m]);
  }

  /** A child of any node of a subtree lies strictly below the subtree's root. */
  lemma {:induction false} ChildBelow(n: NavItem, x: NavItem, c: NavItem)
    requires x in PreOrderItem(n) && c in Children(x)
    ensures c in PreOrder(Children(n))
    decreases n
  {
    if x == n {
      var i :| 0 <= i < |Children(n)| && Children(n)[i] == c;
      PreOrderSegment(Children(n), i, c);
    } else {
      var cs := n.items.list;
      var m := PreOrderMember(cs, x);
      ChildBelow(cs[m], x, c);
      PreOrderSegment(cs, m, c);
    }
  }

  /** A child of a node of the forest is itself a node of the forest. */
  lemma {:induction false} ChildInPreOrder(f: seq<NavItem>, x: NavItem, c: NavItem)
    requires x in PreOrder(f) && c in Children(x)
    ensures c in PreOrder(f)
  {
    var m := PreOrderMember(f, x);
    ChildBelow(f[m], x, c);
    PreOrderSegment(f, m, c);
  }

  /** Unique ids: the subtrees of two different roots share no id. */
  lemma {:induction false} SegmentsDisjoint(f: seq<NavItem>, m: nat, m': nat, u: NavItem, v: NavItem)
    requires DistinctIds(PreOrder(f))
    requires m < |f| && m' < |f| && m != m'
    requires u in PreOrderItem(f[m]) && v in PreOrderItem(f[m'])
    ensures u.id != v.id
    decreases f
  {
    DistinctIdsSplit(PreOrderItem(f[0]), PreOrder(f[1..]));
    if m == 0 {
      assert f[1..][m' - 1] == f[m'];
      PreOrderSegment(f[1..], m' - 1, v);
    } else if m' == 0 {
      assert f[1..][m - 1] == f[m];
      PreOrderSegment(f[1..], m - 1, u);
    } else {
      assert f[1..][m - 1] == f[m] && f[1..][m' - 1] == f[m'];
      SegmentsDisjoint(f[1..], m - 1, m' - 1, u, v);
    }
  }

  /** Unique ids: the subtree of each root has unique ids. */
  lemma {:induction false} SegmentDistinct(f: seq<NavItem>, m: nat)
    requires DistinctIds(PreOrder(f)) && m < |f|
    ensures DistinctIds(PreOrderItem(f[m]))
    decreases f
  {
    DistinctIdsSplit(PreOrderItem(f[0]), PreOrder(f[1..]));
    if m > 0 {
      assert f[1..][m - 1] == f[m];
      SegmentDistinct(f[1..], m - 1);
    }
  }

  /** Unique ids: no node below the root shares the root's id. */
  lemma {:induction false} RootIdNotBelow(n: NavItem, v: NavItem)
    requires DistinctIds(PreOrderItem(n)) && v in PreOrder(Children(n))
    ensures v.id != n.id
  {
    DistinctIdsSplit([n], PreOrder(Children(n)));
  }

  /** A direct child of the root and a child of a node below the root never
      share an id. */
  lemma {:induction false} RootChildNotShared(n: NavItem, y: NavItem, a: NavItem, b: NavItem)
    requires DistinctIds(PreOrderItem(n))
    requires a in Children(n) && y in PreOrder(Children(n)) && b in Children(y)
    ensures a.id != b.id
  {
    var cs := Children(n);
    DistinctIdsSplit([n], PreOrder(cs));
    var i :| 0 <= i < |cs| && cs[i] == a;
    var j := PreOrderMember(cs, y);
    ChildBelow(cs[j], y, b);
    if i == j {
      SegmentDistinct(cs, i);
      RootIdNotBelow(cs[i], b);
    } else {
      assert b in PreOrderItem(cs[j]);
      SegmentsDisjoint(cs, i, j, a, b);
    }
  }

  /** With unique ids, two nodes that both have a child with the same id are
      the same node: each page has at most one enclosing section. */
  lemma {:induction false} SameParent(f: seq<NavItem>, x: NavItem, y: NavItem, a: NavItem, b: NavItem)
    requires DistinctIds(PreOrder(f))
    requires x in PreOrder(f) && y in PreOrder(f)
    requires a in Children(x) && b in Children(y) && a.id == b.id
    ensures x == y
    decreases f, 1
  {
    var m := PreOrderMember(f, x);
    var m' := PreOrderMember(f, y);
    ChildBelow(f[m], x, a);
    ChildBelow(f[m'], y, b);
    if m != m' {
      assert a in PreOrderItem(f[m]) && b in PreOrderItem(f[m']);
      SegmentsDisjoint(f, m, m', a, b);
    } else {
      SegmentDistinct(f, m);
      SameParentItem(f[m], x, y, a, b);
    }
  }

  lemma {:induction false} SameParentItem(n: NavItem, x: NavItem, y: NavItem, a: NavItem, b: NavItem)
    requires DistinctIds(PreOrderItem(n))
    requires x in PreOrderItem(n) && y in PreOrderItem(n)
    requires a in Children(x) && b in Children(y) && a.id == b.id
    ensures x == y
    decreases n, 0
  {
    if x == n && y != n {
      RootChildNotShared(n, y, a, b);
    } else if x != n && y == n {
      RootChildNotShared(n, x, b, a);
    } else if x != n && y != n {
      var cs := n.items.list;
      DistinctIdsSplit([n], PreOrder(cs));
      SameParent(cs, x, y, a, b);
    }
  }

  /** With unique ids, the children of a node have unique ids. */
  lemma {:induction false} ChildrenDistinct(f: seq<NavItem>, s: NavItem)
    requires DistinctIds(PreOrder(f)) && s in PreOrder(f)
    ensures DistinctIds(Children(s))
  {
    var m := PreOrderMember(f, s);
    SegmentDistinct(f, m);
    SubtreeDistinct(f[m], s);
    var cs := Children(s);
    DistinctIdsSplit([s], PreOrder(cs));
    forall i, j | 0 <= i < j < |cs| ensures cs[i].id != cs[j].id {
      SegmentsDisjoint(cs, i, j, cs[i], cs[j]);
    }
  }

  /** Unique ids inside a subtree carry over to the subtrees below it. */
  lemma {:induction false} SubtreeDistinct(n: NavItem, x: NavItem)
    requires DistinctIds(PreOrderItem(n)) && x in PreOrderItem(n)
    ensures DistinctIds(PreOrderItem(x))
    decreases n
  {
    if x != n {
      var cs := n.items.list;
      DistinctIdsSplit([n], PreOrder(cs));
      var m := PreOrderMember(cs, x);
      SegmentDistinct(cs, m);
      SubtreeDistinct(cs[m], x);
    }
  }

  /** With unique ids, a top-level node is nobody's child. */
  lemma {:induction false} TopLevelIsNoChild(f: seq<NavItem>, k: nat, x: NavItem, c: NavItem)
    requires DistinctIds(PreOrder(f)) && k < |f|
    requires x in PreOrder(f) && c in Children(x)
    ensures c.id != f[k].id
  {
    var m := PreOrderMember(f, x);
    ChildBelow(f[m], x, c);
    if m == k {
      SegmentDistinct(f, k);
      RootIdNotBelow(f[k], c);
    } else {
      assert c in PreOrderItem(f[m]) && f[k] in PreOrderItem(f[k]);
      SegmentsDisjoint(f, m, k, c, f[k]);
    }
  }

  // ---------------------------------------------------------------------------
  // Properties of the page functions
  // ---------------------------------------------------------------------------

  /** With unique ids, the enclosing section of a child of `s` is `s`. */
  lemma {:induction false} EnclosingSectionOfChild(navs: seq<NavItem>, s: NavItem, k: nat)
    requires DistinctIds(PreOrder(navs)) && s in PreOrder(navs) && k < |Children(s)|
    ensures EnclosingSection(navs, Children(s)[k].id) == Some(s)
  {
    var id := Children(s)[k].id;
    assert ContainsChild(id)(s);
    var r := EnclosingSection(navs, id);
    var j :| 0 <= j < |Children(r.value)| && Children(r.value)[j].id == id;
    SameParent(navs, r.value, s, Children(r.value)[j], Children(s)[k]);
  }

  /** `getNextPageID` by position (ids unique): inside a chronological section the
      next page of child `k` is child `k + 1`, entered at its first child when it
      is a container; the last child and every child of a non-chronological
      section have none. */
  lemma {:induction false} NextPageOfChild(navs: seq<NavItem>, s: NavItem, k: nat)
    requires DistinctIds(PreOrder(navs)) && s in PreOrder(navs) && k < |Children(s)|
    ensures var cs := Children(s);
      GetNextPageID(navs, cs[k].id) ==
        if !IsChronological(s) || k + 1 == |cs| then NoPage else NextTarget(cs[k + 1])
  {
    EnclosingSectionOfChild(navs, s, k);
    ChildrenDistinct(navs, s);
  }

  /** `getPreviousPageID` by position (ids unique): inside a chronological section
      the previous page of child `k` is child `k - 1`, as it is; the first child
      and every child of a non-chronological section have none. */
  lemma {:induction false} PreviousPageOfChild(navs: seq<NavItem>, s: NavItem, k: nat)
    requires DistinctIds(PreOrder(navs)) && s in PreOrder(navs) && k < |Children(s)|
    ensures var cs := Children(s);
      GetPreviousPageID(navs, cs[k].id) ==
        if !IsChronological(s) || k == 0 then NoPage else Page(cs[k - 1].permalink, cs[k - 1])
  {
    EnclosingSectionOfChild(navs, s, k);
    ChildrenDistinct(navs, s);
  }

  /** With unique ids, no child of a section lacking `chronological: true` has a
      next or a previous page. */
  lemma {:induction false} NonChronologicalSectionIsolated(navs: seq<NavItem>, s: NavItem)
    requires DistinctIds(PreOrder(navs)) && s in PreOrder(navs) && !IsChronological(s)
    ensures forall c :: c in Children(s) ==>
      GetNextPageID(navs, c.id) == NoPage && GetPreviousPageID(navs, c.id) == NoPage
  {
    forall c | c in Children(s)
      ensures GetNextPageID(navs, c.id) == NoPage && GetPreviousPageID(navs, c.id) == NoPage
    {
      var k :| 0 <= k < |Children(s)| && Children(s)[k] == c;
      NextPageOfChild(navs, s, k);
      PreviousPageOfChild(navs, s, k);
    }
  }

  /** The same for a top-level section, given by its position. */
  lemma {:induction false} NonChronologicalRootIsolated(navs: seq<NavItem>, m: nat)
    requires DistinctIds(PreOrder(navs)) && m < |navs| && !IsChronological(navs[m])
    ensures forall c :: c in Children(navs[m]) ==>
      GetNextPageID(navs, c.id) == NoPage && GetPreviousPageID(navs, c.id) == NoPage
  {
    RootInPreOrder(navs, m);
    NonChronologicalSectionIsolated(navs, navs[m]);
  }

  /** An id that no node carries has neither a next nor a previous page. */
  lemma {:induction false} UnknownIdHasNoNeighbours(navs: seq<NavItem>, id: string)
    requires forall x :: x in PreOrder(navs) ==> x.id != id
    ensures GetNextPageID(navs, id) == NoPage && GetPreviousPageID(navs, id) == NoPage
  {
    var r := EnclosingSection(navs, id);
    if r.Some? {
      var k :| 0 <= k < |r.value.items.list| && r.value.items.list[k].id == id;
      ChildInPreOrder(navs, r.value, r.value.items.list[k]);
      assert false;
    }
  }

  /** With unique ids, a top-level section has neither a next nor a previous
      page. */
  lemma {:induction false} TopLevelHasNoNeighbours(navs: seq<NavItem>, k: nat)
    requires DistinctIds(PreOrder(navs)) && k < |navs|
    ensures GetNextPageID(navs, navs[k].id) == NoPage && GetPreviousPageID(navs, navs[k].id) == NoPage
  {
    var id := navs[k].id;
    var r := EnclosingSection(navs, id);
    if r.Some? {
      var j :| 0 <= j < |r.value.items.list| && r.value.items.list[j].id == id;
      TopLevelIsNoChild(navs, k, r.value, r.value.items.list[j]);
      assert false;
    }
  }

  /** Previous undoes next (ids unique): when the next page of `id` is a page
      without `items`, the previous page of that page is the page carrying `id`,
      linked by its own permalink. */
  lemma {:induction false} PreviousUndoesNext(navs: seq<NavItem>, id: string)
    requires DistinctIds(PreOrder(navs))
    requires GetNextPageID(navs, id).Page? && GetNextPageID(navs, id).item.items.Absent?
    ensures var back := GetPreviousPageID(navs, GetNextPageID(navs, id).item.id);
      back.Page? && back.item.id == id && back.path == back.item.permalink
  {
    var s := EnclosingSection(navs, id).value;
    var cs := s.items.list;
    var k := FindIndex(cs, id);
    PreviousPageOfChild(navs, s, k + 1);
  }

  /** A previous page is the sibling just before `id` in a chronological
      section. */
  lemma {:induction false} PreviousPageIsSibling(navs: seq<NavItem>, id: string)
    requires GetPreviousPageID(navs, id).Page?
    ensures var s := EnclosingSection(navs, id).value;
      var k := FindIndex(Children(s), id);
      s in PreOrder(navs) && IsChronological(s) && 1 <= k < |Children(s)| &&
      Children(s)[k].id == id && GetPreviousPageID(navs, id).item == Children(s)[k - 1]
  {
  }

  /** Next undoes previous (ids unique, no empty containers): the next page of
      the previous page of `id` is the node carrying `id`. */
  lemma {:induction false} NextUndoesPrevious(navs: seq<NavItem>, id: string)
    requires DistinctIds(PreOrder(navs))
    requires forall x :: x in PreOrder(navs) ==> x.items != Present([])
    requires GetPreviousPageID(navs, id).Page?
    ensures var fwd := GetNextPageID(navs, GetPreviousPageID(navs, id).item.id);
      fwd.Page? && fwd.item.id == id
  {
    PreviousPageIsSibling(navs, id);
    var s := EnclosingSection(navs, id).value;
    var cs := Children(s);
    var k := FindIndex(cs, id);
    var prev := GetPreviousPageID(navs, id).item;
    assert prev == cs[k - 1];
    ChildInPreOrder(navs, s, cs[k]);
    assert cs[k].items != Present([]);
    NextPageOfChild(navs, s, k - 1);
    assert GetNextPageID(navs, prev.id) == NextTarget(cs[k]);
  }
}
