/**
  The e-book builder of packages/handbook-epub/script/createEpub.ts: the loop of
  `startEpub` that turns the "Writing Reactors" section into numbered chapters,
  and `addHandbookPage`, which renders one page into a chapter. The EPUB stream
  is modelled by the chapters written to it and whether it was ended.
*/
module HandbookEpub {
  import opened Wrappers
  import opened NavTree
  import NavData

  /** A generated markdown page: its `data.title` and its `content`. */
  datatype Markdown = Markdown(title: string, content: string)

  /** `Streampub.newChapter(title, content, index)`. */
  datatype Chapter = Chapter(title: string, markup: string, index: int)

  /** What setupPages.js provides, taken as given: the map built by
      `generateV2Markdowns` (keyed by permalink), the renderer `getHTML` and
      `replaceAllInString`. */
  datatype Setup = Setup(
    markdowns: map<string, Markdown>,
    getHTML: string -> string,
    replaceAllInString: (string, seq<(string, string)>) -> string)

  /** `bookMetadata.title`. */
  const BookTitle: string := "Lingua Franca Handbook"

  /** The title of the one top-level section that goes into the book. */
  const HandbookTitle: string := "Writing Reactors"

  const Stylesheet: string := "<link href=\"style.css\" type=\"text/css\" rel=\"stylesheet\" />"
  const Suffix: string := "</div>"

  /** The single rewrite applied to the rendered HTML: site-relative links
      become absolute links to the web site. */
  const LinkRewrite: seq<(string, string)> := [("a href=\"/", "a href=\"https://www.lf-lang.org/")]

  /** The markup in front of a page's HTML. */
  function Prefix(title: string): string {
    Stylesheet + "<h1>" + title + "</h1><div class='section'>"
  }

  /** The intro chapter, written before any handbook page. */
  function Intro(editedIntro: string): Chapter {
    Chapter(BookTitle, editedIntro, 0)
  }

  // ---------------------------------------------------------------------------
  // addHandbookPage
  // ---------------------------------------------------------------------------

  /** `if (item.permalink)`: a permalink counts when present and non-empty. */
  predicate Truthy(permalink: Option<string>) {
    permalink.Some? && permalink.value != ""
  }

  /** `markdowns.get(id)`; an `undefined` id finds nothing. */
  function LookupPage(markdowns: map<string, Markdown>, id: Option<string>): Option<Markdown> {
    if id.Some? && id.value in markdowns then Some(markdowns[id.value]) else None
  }

  /** The rendered HTML of a page after the link rewrite. */
  function Edited(md: Markdown, setup: Setup): string {
    setup.replaceAllInString(setup.getHTML(md.content), LinkRewrite)
  }

  /** The HTML inside a chapter's frame: the markup with the prefix for the
      chapter's title and the suffix taken off, if it has them. */
  function Unwrap(c: Chapter): (r: Option<string>)
    ensures r.Some? ==> c.markup == Prefix(c.title) + r.value + Suffix
  {
    var p := Prefix(c.title);
    var n := |c.markup|;
    if n >= |p| + |Suffix| && c.markup[..|p|] == p && c.markup[n - |Suffix|..] == Suffix then
      var body := c.markup[|p|..n - |Suffix|];
      assert c.markup == c.markup[..|p|] + body + c.markup[n - |Suffix|..];
      Some(body)
    else None
  }

  /** The chapter `addHandbookPage` writes for a page found in the map: it
      carries the markdown's title and the given index, and its markup is the
      edited HTML in the fixed frame. */
  function PageChapter(md: Markdown, index: int, setup: Setup): (r: Chapter)
    ensures r.title == md.title && r.index == index && Unwrap(r) == Some(Edited(md, setup))
  {
    var p := Prefix(md.title);
    var e := Edited(md, setup);
    var m := p + e + Suffix;
    assert m[..|p|] == p;
    assert m[|m| - |Suffix|..] == Suffix;
    assert m[|p|..|m| - |Suffix|] == e;
    Chapter(md.title, m, index)
  }

  /** The stream the book is written to: the chapters in the order written, and
      whether `end()` was called. */
  class EpubStream {
    var chapters: seq<Chapter>
    var ended: bool

    constructor()
      ensures chapters == [] && !ended
    {
      chapters := [];
      ended := false;
    }

    /** `epub.write(chapter)`: appends. */
    method Write(c: Chapter)
      requires !ended
      modifies this
      ensures chapters == old(chapters) + [c] && !ended
    {
      chapters := chapters + [c];
    }

    /** `epub.end()`. */
    method End()
      requires !ended
      modifies this
      ensures ended && chapters == old(chapters)
    {
      ended := true;
    }
  }

  /** `addHandbookPage(epub, id, index)`: writes the page's chapter, or, when the
      map has no markdown for `id`, writes nothing and reports the error that
      the source throws (`ok == false`). */
  method AddHandbookPage(epub: EpubStream, id: Option<string>, index: int, setup: Setup) returns (ok: bool)
    requires !epub.ended
    modifies epub
    ensures ok <==> LookupPage(setup.markdowns, id).Some?
    ensures ok ==> epub.chapters == old(epub.chapters) + [PageChapter(LookupPage(setup.markdowns, id).value, index, setup)]
    ensures !ok ==> epub.chapters == old(epub.chapters)
    ensures !epub.ended
  {
    var md := LookupPage(setup.markdowns, id);
    if md.None? {
      return false;
    }
    var title := md.value.title;
    var html := setup.getHTML(md.value.content);
    var edited := setup.replaceAllInString(html, LinkRewrite);
    epub.Write(Chapter(title, Prefix(title) + edited + Suffix, index));
    return true;
  }

  // ---------------------------------------------------------------------------
  // The emission order
  // ---------------------------------------------------------------------------

  /** The item's own permalink, when it counts. */
  function OwnKey(item: NavItem): seq<Option<string>> {
    if Truthy(item.permalink) then [item.permalink] else []
  }

  /** The permalinks of the first `n` sub-items, taken as they are
      (`subitem.permalink!`). */
  function SubKeys(subs: seq<NavItem>, n: nat): seq<Option<string>>
    requires n <= |subs|
    decreases n
  {
    if n == 0 then [] else SubKeys(subs, n - 1) + [subs[n - 1].permalink]
  }

  /** What one item of the section contributes: its own permalink first, then
      its sub-items' permalinks; the two tests are independent. */
  function ItemKeys(item: NavItem): seq<Option<string>> {
    OwnKey(item) + SubKeys(Children(item), |Children(item)|)
  }

  /** The permalinks the loop of `startEpub` visits for the first `n` items. */
  function KeysOfFirst(items: seq<NavItem>, n: nat): seq<Option<string>>
    requires n <= |items|
    decreases n
  {
    if n == 0 then [] else KeysOfFirst(items, n - 1) + ItemKeys(items[n - 1])
  }

  /** The permalinks in the order the loop of `startEpub` visits them. */
  function PageKeys(items: seq<NavItem>): seq<Option<string>> {
    KeysOfFirst(items, |items|)
  }

  /** The number of items with a permalink that counts. */
  function CountPermalinks(items: seq<NavItem>): nat
    decreases |items|
  {
    if items == [] then 0
    else CountPermalinks(items[..|items| - 1]) + (if Truthy(items[|items| - 1].permalink) then 1 else 0)
  }

  /** The total length of the items' `items` lists. */
  function TotalSubitems(items: seq<NavItem>): nat
    decreases |items|
  {
    if items == [] then 0 else TotalSubitems(items[..|items| - 1]) + |Children(items[|items| - 1])|
  }

  /** One item is visited as its own permalink, when it counts, followed by the
      permalink of each sub-item in order. */
  lemma {:induction false} ItemKeysOrder(item: NavItem)
    ensures var r := ItemKeys(item); var cs := Children(item);
      |r| == |OwnKey(item)| + |cs| &&
      (Truthy(item.permalink) <==> |OwnKey(item)| == 1) &&
      (Truthy(item.permalink) ==> r[0] == item.permalink) &&
      forall k :: 0 <= k < |cs| ==> r[|OwnKey(item)| + k] == cs[k].permalink
  {
    var cs := Children(item);
    SubKeysAt(cs, |cs|);
  }

  /** The keys of fewer sub-items are a prefix of the keys of more. */
  lemma {:induction false} SubKeysPrefix(subs: seq<NavItem>, n: nat, m: nat)
    requires n <= m <= |subs|
    ensures SubKeys(subs, n) <= SubKeys(subs, m)
    decreases m
  {
    if n < m { SubKeysPrefix(subs, n, m - 1); }
  }

  /** The keys of fewer items are a prefix of the keys of more. */
  lemma {:induction false} KeysPrefix(items: seq<NavItem>, n: nat, m: nat)
    requires n <= m <= |items|
    ensures KeysOfFirst(items, n) <= KeysOfFirst(items, m)
    decreases m
  {
    if n < m { KeysPrefix(items, n, m - 1); }
  }

  /** `n` sub-items give `n` keys. */
  lemma {:induction false} SubKeysLength(subs: seq<NavItem>, n: nat)
    requires n <= |subs|
    ensures |SubKeys(subs, n)| == n
    decreases n
  {
    if n > 0 { SubKeysLength(subs, n - 1); }
  }

  /** Sub-item `k` gives the `k`-th key. */
  lemma {:induction false} SubKeysAt(subs: seq<NavItem>, n: nat)
    requires n <= |subs|
    ensures |SubKeys(subs, n)| == n
    ensures forall k :: 0 <= k < n ==> SubKeys(subs, n)[k] == subs[k].permalink
    decreases n
  {
    SubKeysLength(subs, n);
    if n > 0 {
      SubKeysAt(subs, n - 1);
      SubKeysLength(subs, n - 1);
    }
  }

  /** The keys visited when the loop is at item `i`, past its own permalink and
      its first `j` sub-items. */
  function KeysAt(items: seq<NavItem>, i: nat, j: nat): seq<Option<string>>
    requires i < |items| && j <= |Children(items[i])|
  {
    KeysOfFirst(items, i) + OwnKey(items[i]) + SubKeys(Children(items[i]), j)
  }

  /** Visiting one more sub-item. */
  lemma {:induction false} KeysAtStep(items: seq<NavItem>, i: nat, j: nat)
    requires i < |items| && j < |Children(items[i])|
    ensures KeysAt(items, i, j + 1) == KeysAt(items, i, j) + [Children(items[i])[j].permalink]
  {
  }

  /** Before the sub-items, and after all of them. */
  lemma {:induction false} KeysAtEnds(items: seq<NavItem>, i: nat)
    requires i < |items|
    ensures KeysAt(items, i, 0) == KeysOfFirst(items, i) + OwnKey(items[i])
    ensures KeysAt(items, i, |Children(items[i])|) == KeysOfFirst(items, i + 1)
  {
    var cs := Children(items[i]);
    assert SubKeys(cs, 0) == [];
    assert KeysOfFirst(items, i + 1) == KeysOfFirst(items, i) + ItemKeys(items[i]);
    var a, b, c := KeysOfFirst(items, i), OwnKey(items[i]), SubKeys(cs, |cs|);
    assert (a + b) + c == a + (b + c);
  }

  /** Every point of the loop has visited a prefix of the whole order. */
  lemma {:induction false} KeysAtPrefix(items: seq<NavItem>, i: nat, j: nat)
    requires i < |items| && j <= |Children(items[i])|
    ensures KeysAt(items, i, j) <= PageKeys(items)
  {
    var cs := Children(items[i]);
    SubKeysPrefix(cs, j, |cs|);
    KeysPrefix(items, i + 1, |items|);
    KeysAtEnds(items, i);
  }

  /** The number of keys visited for the first `n` items is the number of
      those items with a permalink plus their total number of sub-items. */
  lemma {:induction false} KeysOfFirstCount(items: seq<NavItem>, n: nat)
    requires n <= |items|
    ensures |KeysOfFirst(items, n)| == CountPermalinks(items[..n]) + TotalSubitems(items[..n])
    decreases n
  {
    if n > 0 {
      KeysOfFirstCount(items, n - 1);
      assert items[..n][..n - 1] == items[..n - 1];
      var cs := Children(items[n - 1]);
      SubKeysLength(cs, |cs|);
      assert |ItemKeys(items[n - 1])| == |OwnKey(items[n - 1])| + |cs|;
    }
  }

  /** The number of pages visited is the number of items with a permalink plus
      the total number of sub-items. */
  lemma {:induction false} PageKeysCount(items: seq<NavItem>)
    ensures |PageKeys(items)| == CountPermalinks(items) + TotalSubitems(items)
  {
    KeysOfFirstCount(items, |items|);
    assert items[..|items|] == items;
  }

  /** A section of leaves with permalinks is visited item by item. */
  lemma {:induction false} LeafKeys(items: seq<NavItem>, n: nat)
    requires n <= |items|
    requires forall k :: 0 <= k < |items| ==> items[k].items.Absent? && Truthy(items[k].permalink)
    ensures KeysOfFirst(items, n) == seq(n, k requires 0 <= k < n => items[k].permalink)
    decreases n
  {
    if n > 0 { LeafKeys(items, n - 1); }
  }

  // ---------------------------------------------------------------------------
  // Writing the pages
  // ---------------------------------------------------------------------------

  /** The pages found for a list of permalinks, in order, and whether every
      one of them was found (`complete`); the search stops at the first one
      missing. */
  datatype Emission = Emission(found: seq<Markdown>, complete: bool)

  /** Looking the permalinks up one after the other: the pages found are those
      of the longest run of keys present in the map; when that run is not
      all of `keys`, the key after it is missing. */
  function Emit(keys: seq<Option<string>>, markdowns: map<string, Markdown>): (e: Emission)
    ensures |e.found| <= |keys|
    ensures e.complete <==> |e.found| == |keys|
    ensures !e.complete ==> LookupPage(markdowns, keys[|e.found|]).None?
    decreases |keys|
  {
    if keys == [] then Emission([], true)
    else
      var e := Emit(keys[..|keys| - 1], markdowns);
      if !e.complete then e
      else match LookupPage(markdowns, keys[|keys| - 1])
        case None => Emission(e.found, false)
        case Some(md) => Emission(e.found + [md], true)
  }

  /** Every page found is the page stored under the key at its position. */
  lemma {:induction false} EmitFound(keys: seq<Option<string>>, markdowns: map<string, Markdown>)
    ensures var e := Emit(keys, markdowns);
      forall k :: 0 <= k < |e.found| ==> LookupPage(markdowns, keys[k]) == Some(e.found[k])
    decreases |keys|
  {
    if keys != [] {
      var init := keys[..|keys| - 1];
      EmitFound(init, markdowns);
      assert forall k :: 0 <= k < |init| ==> init[k] == keys[k];
    }
  }

  /** One more key after a complete emission. */
  lemma {:induction false} EmitSnoc(keys: seq<Option<string>>, key: Option<string>, markdowns: map<string, Markdown>)
    requires Emit(keys, markdowns).complete
    ensures LookupPage(markdowns, key).None? ==>
      Emit(keys + [key], markdowns) == Emission(Emit(keys, markdowns).found, false)
    ensures LookupPage(markdowns, key).Some? ==>
      Emit(keys + [key], markdowns) == Emission(Emit(keys, markdowns).found + [LookupPage(markdowns, key).value], true)
  {
    assert (keys + [key])[..|keys|] == keys;
  }

  /** Once a key is missing, nothing after it is found. */
  lemma {:induction false} EmitStops(a: seq<Option<string>>, b: seq<Option<string>>, markdowns: map<string, Markdown>)
    requires !Emit(a, markdowns).complete
    ensures Emit(a + b, markdowns) == Emit(a, markdowns)
    decreases |b|
  {
    if b == [] {
      assert a + b == a;
    } else {
      var b' := b[..|b| - 1];
      assert (a + b)[..|a + b| - 1] == a + b';
      EmitStops(a, b', markdowns);
    }
  }

  /** What is found for a prefix of the keys stays at the head of what is
      found for all of them. */
  lemma {:induction false} EmitPrefix(keys: seq<Option<string>>, n: nat, markdowns: map<string, Markdown>)
    requires n <= |keys|
    ensures Emit(keys[..n], markdowns).found <= Emit(keys, markdowns).found
  {
    EmitFound(keys[..n], markdowns);
    EmitFound(keys, markdowns);
    assert forall k :: 0 <= k < n ==> keys[..n][k] == keys[k];
  }

  /** The chapters `addHandbookPage` writes for pages, with indices counted
      from 0. */
  function Chapters(pages: seq<Markdown>, setup: Setup): (cs: seq<Chapter>)
    ensures |cs| == |pages|
    decreases |pages|
  {
    if pages == [] then []
    else Chapters(pages[..|pages| - 1], setup) + [PageChapter(pages[|pages| - 1], |pages| - 1, setup)]
  }

  /** One more page gives one more chapter, at the end. */
  lemma {:induction false} ChaptersSnoc(pages: seq<Markdown>, md: Markdown, setup: Setup)
    ensures Chapters(pages + [md], setup) == Chapters(pages, setup) + [PageChapter(md, |pages|, setup)]
  {
    assert (pages + [md])[..|pages|] == pages;
  }

  /** The chapter at position `k` renders page `k` with index `k`. */
  lemma {:induction false} ChaptersAt(pages: seq<Markdown>, setup: Setup)
    ensures forall k :: 0 <= k < |pages| ==> Chapters(pages, setup)[k] == PageChapter(pages[k], k, setup)
    decreases |pages|
  {
    if pages != [] {
      var init := pages[..|pages| - 1];
      ChaptersAt(init, setup);
      assert forall k :: 0 <= k < |init| ==> init[k] == pages[k];
    }
  }

  /** The chapters written for the permalinks `keys`. */
  function Written(keys: seq<Option<string>>, setup: Setup): seq<Chapter> {
    Chapters(Emit(keys, setup.markdowns).found, setup)
  }

  /** The chapter at position `k` is the page stored under the `k`-th key,
      with index `k`. */
  lemma {:induction false} WrittenAt(keys: seq<Option<string>>, setup: Setup)
    ensures |Written(keys, setup)| <= |keys|
    ensures forall k :: 0 <= k < |Written(keys, setup)| ==>
      keys[k].Some? && keys[k].value in setup.markdowns &&
      Written(keys, setup)[k] == PageChapter(setup.markdowns[keys[k].value], k, setup)
  {
    var e := Emit(keys, setup.markdowns);
    EmitFound(keys, setup.markdowns);
    ChaptersAt(e.found, setup);
  }

  /** A page found for the next key is appended after what the stream holds. */
  lemma {:induction false} EmitAppends(intro: Chapter, keys: seq<Option<string>>, key: Option<string>, setup: Setup)
    requires Emit(keys, setup.markdowns).complete && LookupPage(setup.markdowns, key).Some?
    ensures Emit(keys + [key], setup.markdowns).complete
    ensures [intro] + Written(keys + [key], setup) ==
      ([intro] + Written(keys, setup)) + [PageChapter(LookupPage(setup.markdowns, key).value, |keys|, setup)]
  {
    var f := Emit(keys, setup.markdowns).found;
    var md := LookupPage(setup.markdowns, key).value;
    var c := PageChapter(md, |keys|, setup);
    EmitSnoc(keys, key, setup.markdowns);
    assert Emit(keys + [key], setup.markdowns).found == f + [md];
    ChaptersSnoc(f, md, setup);
    assert Written(keys + [key], setup) == Chapters(f, setup) + [c];
    assert ([intro] + Chapters(f, setup)) + [c] == [intro] + (Chapters(f, setup) + [c]);
  }

  // ---------------------------------------------------------------------------
  // startEpub
  // ---------------------------------------------------------------------------

  /** How `startEpub` finishes: normally, or with the error it throws. */
  datatype EpubOutcome =
    | Finished
      /** `handbook!.items!` with no "Writing Reactors" section: a TypeError. */
    | NoHandbookSection
      /** That section has no `items`: iterating `undefined` is a TypeError. */
    | HandbookWithoutItems
      /** `addHandbookPage` found no markdown for this permalink. */
    | MissingMarkdown(key: Option<string>)

  /** The state `startEpub` leaves: the chapters written, whether the stream
      was ended, and how it finished. */
  datatype Run = Run(chapters: seq<Chapter>, ended: bool, outcome: EpubOutcome)

  /** The test given to `handbookNavigation.find`. */
  predicate IsHandbook(i: NavItem) {
    i.title == HandbookTitle
  }

  /** The run of `startEpub` on a navigation forest: the intro chapter, then the
      section's pages in visiting order with indices counted from 0, stopping at
      the first missing markdown; the stream is ended only when every page was
      written. */
  function EpubRun(handbookNavigation: seq<NavItem>, setup: Setup, editedIntro: string): (r: Run)
    ensures |r.chapters| >= 1 && r.chapters[0] == Intro(editedIntro)
    ensures r.ended <==> r.outcome == Finished
    ensures r.outcome.MissingMarkdown? ==> LookupPage(setup.markdowns, r.outcome.key).None?
  {
    var intro := Intro(editedIntro);
    match FirstMatch(handbookNavigation, IsHandbook)
    case None => Run([intro], false, NoHandbookSection)
    case Some(handbook) =>
      if handbook.items.Absent? then Run([intro], false, HandbookWithoutItems)
      else
        var keys := PageKeys(handbook.items.list);
        var e := Emit(keys, setup.markdowns);
        if e.complete then Run([intro] + Chapters(e.found, setup), true, Finished)
        else Run([intro] + Chapters(e.found, setup), false, MissingMarkdown(keys[|e.found|]))
  }

  /** A run over a section whose visited permalinks are all found. */
  lemma {:induction false} RunFinishes(handbookNavigation: seq<NavItem>, setup: Setup, editedIntro: string, handbook: NavItem)
    requires FirstMatch(handbookNavigation, IsHandbook) == Some(handbook) && handbook.items.Present?
    requires Emit(PageKeys(handbook.items.list), setup.markdowns).complete
    ensures EpubRun(handbookNavigation, setup, editedIntro) ==
      Run([Intro(editedIntro)] + Written(PageKeys(handbook.items.list), setup), true, Finished)
  {
  }

  /** A run over a section whose permalinks start with `done`, all found, then
      the missing `key`. */
  lemma {:induction false} RunStops(handbookNavigation: seq<NavItem>, setup: Setup, editedIntro: string, handbook: NavItem,
                 done: seq<Option<string>>, key: Option<string>)
    requires FirstMatch(handbookNavigation, IsHandbook) == Some(handbook) && handbook.items.Present?
    requires done + [key] <= PageKeys(handbook.items.list)
    requires Emit(done, setup.markdowns).complete && LookupPage(setup.markdowns, key).None?
    ensures EpubRun(handbookNavigation, setup, editedIntro) ==
      Run([Intro(editedIntro)] + Written(done, setup), false, MissingMarkdown(key))
  {
    var keys := PageKeys(handbook.items.list);
    var rest := keys[|done| + 1..];
    assert keys == done + [key] + rest;
    EmitSnoc(done, key, setup.markdowns);
    EmitStops(done + [key], rest, setup.markdowns);
  }

  /** The stream holds the intro and then the chapters for the permalinks
      `done`, all of them found; `counter` pages have been written. */
  ghost predicate Visited(chapters: seq<Chapter>, intro: Chapter, done: seq<Option<string>>, counter: int, setup: Setup) {
    counter == |done| && Emit(done, setup.markdowns).complete && chapters == [intro] + Written(done, setup)
  }

  /** Before the loop: only the intro is written, and nothing was visited. */
  lemma {:induction false} VisitedNothing(intro: Chapter, setup: Setup)
    ensures Visited([intro], intro, [], 0, setup)
  {
    assert Emit([], setup.markdowns) == Emission([], true);
    assert Written([], setup) == [];
  }

  /** The loop stopped at `key`: the permalinks `done` before it were all
      found and written, and `key` has no markdown. */
  ghost predicate StoppedAt(chapters: seq<Chapter>, intro: Chapter, items: seq<NavItem>,
                            done: seq<Option<string>>, key: Option<string>, setup: Setup) {
    done + [key] <= PageKeys(items) && LookupPage(setup.markdowns, key).None? &&
    Emit(done, setup.markdowns).complete && chapters == [intro] + Written(done, setup)
  }

  /** The inner loop of `startEpub`, over the sub-items of `items[i]`, after
      the item's own permalink was visited. */
  method AddSubitemPages(epub: EpubStream, intro: Chapter, items: seq<NavItem>, i: nat, counter0: int,
                         ghost done0: seq<Option<string>>, setup: Setup)
    returns (counter: int, ghost done: seq<Option<string>>, missing: Option<Option<string>>)
    requires i < |items| && items[i].items.Present?
    requires !epub.ended && done0 == KeysAt(items, i, 0) && Visited(epub.chapters, intro, done0, counter0, setup)
    modifies epub
    ensures !epub.ended
    ensures missing.None? ==> done == KeysOfFirst(items, i + 1) && Visited(epub.chapters, intro, done, counter, setup)
    ensures missing.Some? ==> StoppedAt(epub.chapters, intro, items, done, missing.value, setup)
  {
    var subs := items[i].items.list;
    counter, done := counter0, done0;
    var j := 0;
    while j < |subs|
      invariant 0 <= j <= |subs|
      invariant done == KeysAt(items, i, j)
      invariant Visited(epub.chapters, intro, done, counter, setup)
      invariant !epub.ended
    {
      var subitem := subs[j];
      KeysAtStep(items, i, j);
      var ok := AddHandbookPage(epub, subitem.permalink, counter, setup);
      if !ok {
        KeysAtPrefix(items, i, j + 1);
        return counter, done, Some(subitem.permalink);
      }
      EmitAppends(intro, done, subitem.permalink, setup);
      done := done + [subitem.permalink];
      counter := counter + 1;
      j := j + 1;
    }
    KeysAtEnds(items, i);
    missing := None;
  }

  /** One pass of the outer loop of `startEpub`: the item's own permalink when
      it is truthy, then its sub-items when it has an `items` list. */
  method AddItemPages(epub: EpubStream, intro: Chapter, items: seq<NavItem>, i: nat, counter0: int,
                      ghost done0: seq<Option<string>>, setup: Setup)
    returns (counter: int, ghost done: seq<Option<string>>, missing: Option<Option<string>>)
    requires i < |items|
    requires !epub.ended && done0 == KeysOfFirst(items, i) && Visited(epub.chapters, intro, done0, counter0, setup)
    modifies epub
    ensures !epub.ended
    ensures missing.None? ==> done == KeysOfFirst(items, i + 1) && Visited(epub.chapters, intro, done, counter, setup)
    ensures missing.Some? ==> StoppedAt(epub.chapters, intro, items, done, missing.value, setup)
  {
    var item := items[i];
    counter, done := counter0, done0;
    KeysAtEnds(items, i);
    if Truthy(item.permalink) {
      var ok := AddHandbookPage(epub, item.permalink, counter, setup);
      if !ok {
        KeysAtPrefix(items, i, 0);
        return counter, done, Some(item.permalink);
      }
      EmitAppends(intro, done, item.permalink, setup);
      done := done + [item.permalink];
      counter := counter + 1;
    }
    if item.items.Present? {
      counter, done, missing := AddSubitemPages(epub, intro, items, i, counter, done, setup);
    } else {
      missing := None;
    }
  }

  /** The outer loop of `startEpub`, over the items of the section, with the
      page counter starting at 0. */
  method AddSectionPages(epub: EpubStream, intro: Chapter, items: seq<NavItem>, setup: Setup)
    returns (ghost done: seq<Option<string>>, missing: Option<Option<string>>)
    requires !epub.ended && epub.chapters == [intro]
    modifies epub
    ensures !epub.ended
    ensures missing.None? ==> done == PageKeys(items) && Visited(epub.chapters, intro, done, |done|, setup)
    ensures missing.Some? ==> StoppedAt(epub.chapters, intro, items, done, missing.value, setup)
  {
    var counter := 0;
    done := [];
    VisitedNothing(intro, setup);
    var i := 0;
    while i < |items|
      invariant 0 <= i <= |items|
      invariant done == KeysOfFirst(items, i)
      invariant Visited(epub.chapters, intro, done, counter, setup)
      invariant !epub.ended
    {
      counter, done, missing := AddItemPages(epub, intro, items, i, counter, done, setup);
      if missing.Some? {
        return;
      }
      i := i + 1;
    }
    missing := None;
  }

  /** `startEpub` on a given navigation forest (the source passes
      `getDocumentationNavForLanguage("en")`) and the intro with its
      placeholders already replaced. */
  method StartEpub(handbookNavigation: seq<NavItem>, setup: Setup, editedIntro: string)
    returns (epub: EpubStream, outcome: EpubOutcome)
    ensures fresh(epub)
    ensures var r := EpubRun(handbookNavigation, setup, editedIntro);
      epub.chapters == r.chapters && epub.ended == r.ended && outcome == r.outcome
  {
    var found := FirstMatch(handbookNavigation, IsHandbook);
    epub := new EpubStream();
    var intro := Intro(editedIntro);
    epub.Write(intro);
    if found.None? {
      return epub, NoHandbookSection;
    }
    var handbook := found.value;
    if handbook.items.Absent? {
      return epub, HandbookWithoutItems;
    }
    var items := handbook.items.list;
    ghost var done;
    var missing;
    done, missing := AddSectionPages(epub, intro, items, setup);
    if missing.Some? {
      RunStops(handbookNavigation, setup, editedIntro, handbook, done, missing.value);
      return epub, MissingMarkdown(missing.value);
    }
    RunFinishes(handbookNavigation, setup, editedIntro, handbook);
    epub.End();
    outcome := Finished;
  }

  // ---------------------------------------------------------------------------
  // Properties of the run
  // ---------------------------------------------------------------------------

  /** Without a "Writing Reactors" section at the top level, only the intro is
      written and the stream is never ended. */
  lemma {:induction false} NoHandbookOnlyIntro(handbookNavigation: seq<NavItem>, setup: Setup, editedIntro: string)
    requires forall k :: 0 <= k < |handbookNavigation| ==> handbookNavigation[k].title != HandbookTitle
    ensures EpubRun(handbookNavigation, setup, editedIntro) == Run([Intro(editedIntro)], false, NoHandbookSection)
  {
  }

  /** The content chapters are the pages of the first "Writing Reactors"
      section in visiting order, each rendered from the markdown stored under
      its permalink, with its position as index. */
  lemma {:induction false} ContentChapters(handbookNavigation: seq<NavItem>, setup: Setup, editedIntro: string, handbook: NavItem)
    requires FirstMatch(handbookNavigation, IsHandbook) == Some(handbook) && handbook.items.Present?
    ensures var r := EpubRun(handbookNavigation, setup, editedIntro);
      var keys := PageKeys(handbook.items.list);
      |r.chapters| <= 1 + |keys| &&
      forall k :: 0 <= k < |r.chapters| - 1 ==>
        keys[k].Some? && keys[k].value in setup.markdowns &&
        r.chapters[k + 1] == PageChapter(setup.markdowns[keys[k].value], k, setup)
  {
    var keys := PageKeys(handbook.items.list);
    var r := EpubRun(handbookNavigation, setup, editedIntro);
    var cs := Written(keys, setup);
    WrittenAt(keys, setup);
    assert r.chapters == [Intro(editedIntro)] + cs;
    forall k | 0 <= k < |r.chapters| - 1
      ensures r.chapters[k + 1] == cs[k]
    {
    }
  }

  /** After the intro, the chapter at position `k` has index `k - 1`: the
      counter starts at 0 and rises by one per page written. */
  lemma {:induction false} ContentIndices(handbookNavigation: seq<NavItem>, setup: Setup, editedIntro: string)
    ensures var r := EpubRun(handbookNavigation, setup, editedIntro);
      forall k :: 1 <= k < |r.chapters| ==> r.chapters[k].index == k - 1
  {
    var found := FirstMatch(handbookNavigation, IsHandbook);
    if found.Some? && found.value.items.Present? {
      var r := EpubRun(handbookNavigation, setup, editedIntro);
      var keys := PageKeys(found.value.items.list);
      var cs := Written(keys, setup);
      WrittenAt(keys, setup);
      assert r.chapters == [Intro(editedIntro)] + cs;
      forall k | 1 <= k < |r.chapters| ensures r.chapters[k].index == k - 1 {
        assert r.chapters[k] == cs[k - 1];
      }
    }
  }

  /** A finished run holds the intro and one chapter per item with a permalink
      plus one per sub-item. */
  lemma {:induction false} FinishedChapterCount(handbookNavigation: seq<NavItem>, setup: Setup, editedIntro: string, handbook: NavItem)
    requires FirstMatch(handbookNavigation, IsHandbook) == Some(handbook) && handbook.items.Present?
    requires EpubRun(handbookNavigation, setup, editedIntro).outcome == Finished
    ensures |EpubRun(handbookNavigation, setup, editedIntro).chapters| ==
      1 + CountPermalinks(handbook.items.list) + TotalSubitems(handbook.items.list)
  {
    PageKeysCount(handbook.items.list);
  }

  /** A run stops at the first page whose markdown is missing: that page's
      permalink is reported, the pages before it are written, and nothing after
      it is. */
  lemma {:induction false} StopsAtFirstMissing(handbookNavigation: seq<NavItem>, setup: Setup, editedIntro: string, handbook: NavItem, n: nat)
    requires FirstMatch(handbookNavigation, IsHandbook) == Some(handbook) && handbook.items.Present?
    requires var keys := PageKeys(handbook.items.list);
      n < |keys| && LookupPage(setup.markdowns, keys[n]).None? &&
      forall k :: 0 <= k < n ==> LookupPage(setup.markdowns, keys[k]).Some?
    ensures var r := EpubRun(handbookNavigation, setup, editedIntro);
      r.outcome == MissingMarkdown(PageKeys(handbook.items.list)[n]) && !r.ended && |r.chapters| == 1 + n
  {
    EmitFound(PageKeys(handbook.items.list), setup.markdowns);
  }

  /** Every page of the shipped "en" forest that goes into the book: the
      "Writing Reactors" section is found, and its fifteen pages are visited in
      order, each by its permalink. */
  lemma EnglishHandbookPages()
    ensures FirstMatch(NavData.En(), IsHandbook) == Some(NavData.WritingReactors)
    ensures var keys := PageKeys(Children(NavData.WritingReactors));
      |keys| == 15 &&
      forall k :: 0 <= k < 15 ==> keys[k] == Some(NavData.Handbook + NavData.WritingReactorsPages[k].1)
  {
    var f := NavData.En();
    assert f[0].title != HandbookTitle;
    assert f[1..][0] == NavData.WritingReactors;
    var items := Children(NavData.WritingReactors);
    forall k | 0 <= k < |items| ensures items[k].items.Absent? && Truthy(items[k].permalink) {
      assert |items[k].permalink.value| >= |NavData.Handbook|;
    }
    LeafKeys(items, |items|);
  }
}
