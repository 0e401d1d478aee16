/** `rmrf.export.markdown`: the Markdown writer over the files of
    `rmrf.base`. What it decides is modelled here: when a note is stale, the
    page entries a note holds, the two title getters, and the outcome
    `update` reports. Copying and deleting files, hashing, templating and
    the clock are inputs; the tree walk of `update_notes` is the one of
    `rmrf.markdown` (`Markdown.Calls`). */
module ExportMarkdown {
  import opened Common
  import opened Strings
  import Seqs
  import Meta
  import B = BaseFs
  import M = Markdown

  // ---------------------------------------------------------------------
  // MarkdownWriter.should_update

  /** `should_update(node, force)`. `stored` is the note file: `None` when
      there is none, `Some(None)` when it has no `updated:` stamp, and
      `Some(Some(t))` for the stamp `t`. The node's `last_modified_time` is
      read only when there is a stamp to compare it with. */
  function ShouldUpdate(md: Meta.Metadata, stored: Option<Option<int>>, force: bool): (r: Result<bool, Error>)
    ensures force ==> r == Success(true)
    ensures !force && (stored.None? || stored.value.None?) ==> r == Success(true)
    ensures !force && stored.Some? && stored.value.Some? ==>
      (r.Failure? <==> Meta.LastModified(md).Failure?) &&
      (md.lastModified.None? ==> r == Failure(KeyError("lastModified"))) &&
      (r.Success? ==> (r.value <==> stored.value.value < md.lastModified.value))
  {
    if force then Success(true)
    else if stored.None? || stored.value.None? then Success(true)
    else
      var lm :- Meta.LastModified(md);
      Success(!(stored.value.value >= lm))
  }

  /** A note is left alone exactly when it is not forced and its stamp is
      at least the node's last modification; a note stamped no earlier than
      the node stays left alone however often it is asked again. */
  lemma ShouldUpdateStale(md: Meta.Metadata, stored: Option<Option<int>>, force: bool)
    ensures ShouldUpdate(md, stored, force) == Success(false) <==>
      !force && stored.Some? && stored.value.Some? && Meta.LastModified(md).Success? && stored.value.value >= md.lastModified.value
    ensures Meta.LastModified(md).Success? && !force ==>
      ShouldUpdate(md, Some(Some(md.lastModified.value)), force) == Success(false)
  {
  }

  // ---------------------------------------------------------------------
  // The pages of a note

  /** One line of a page: an image link, or a text highlight's colour and
      text (the tuple `(*color, text)`). */
  datatype Entry =
    | ImageEntry(page: Option<int>, link: string)   // `![Image (page ...)](statics/<zid>/<basename>)`
    | TextEntry(color: Rgba, text: string)

  /** The tuple `(page_index, tags, highlights)` of one page. */
  datatype Page = Page(page: Option<int>, tags: set<string>, entries: seq<Entry>)

  /** The entry of one highlight on the page labelled `page`; an image is
      copied into the note's static directory `zid`. */
  function EntryOf(h: B.Highlight, page: Option<int>, zid: string): Entry {
    match h
    case ImageHighlight(_, _, _, path) => ImageEntry(page, M.Link(zid, path))
    case TextHighlight(_, _, _, text, color) => TextEntry(color, text)
  }

  /** An image becomes a link under `statics/` that keeps the image's file
      name; a text highlight keeps its colour and text. */
  lemma EntryShape(h: B.Highlight, page: Option<int>, zid: string)
    ensures var e := EntryOf(h, page, zid);
      (e.ImageEntry? <==> h.ImageHighlight?) &&
      (e.ImageEntry? ==> e.page == page && Basename(e.link) == Basename(h.imagePath) && StartsWith(e.link, "statics/")) &&
      (e.TextEntry? ==> e.color == h.color && e.text == h.text)
  {
  }

  /** The page of one group: its label, the tags of its last highlight and
      one entry per highlight. */
  function PageOf(members: seq<B.Highlight>, shown: Option<int>, zid: string): (p: Page)
    requires |members| > 0
    ensures p.page == shown && p.tags == members[|members| - 1].tags && |p.entries| == |members|
  {
    Page(shown, members[|members| - 1].tags, EntriesOf(members, shown, zid))
  }

  /** The inner loop of `update`: one entry per highlight, in order. */
  function EntriesOf(members: seq<B.Highlight>, shown: Option<int>, zid: string): (es: seq<Entry>)
    ensures |es| == |members|
    ensures forall j :: 0 <= j < |members| ==> es[j] == EntryOf(members[j], shown, zid)
  {
    if members == [] then []
    else
      EntriesOf(members[..|members| - 1], shown, zid) + [EntryOf(members[|members| - 1], shown, zid)]
  }

  /** The pages of the groups, each labelled with the page index of its
      first highlight. */
  function PagesOf<K>(gs: seq<Seqs.Group<K, B.Highlight>>, zid: string): (ps: seq<Page>)
    requires forall g :: 0 <= g < |gs| ==> |gs[g].members| > 0
    ensures |ps| == |gs|
    ensures forall g :: 0 <= g < |gs| ==> ps[g] == PageOf(gs[g].members, gs[g].members[0].pageIndex, zid)
  {
    if gs == [] then []
    else
      var init, last := gs[..|gs| - 1], gs[|gs| - 1];
      assert forall g :: 0 <= g < |init| ==> init[g] == gs[g];
      PagesOf(init, zid) + [PageOf(last.members, last.members[0].pageIndex, zid)]
  }

  /** The page number a page stands for, -1 for no page index. */
  function Key(p: Page): int {
    if p.page.Some? then p.page.value else -1
  }

  /** The grouping loop of `update` as written: sorted on the page index
      with `None` read as -1, then grouped on the raw page index, each page
      labelled with its group's key (the page index all its highlights
      share). Since -1 and `None` sort together but group apart, one page
      number can end up in several pages. */
  function PagesAsWritten(hs: seq<B.Highlight>, zid: string): (ps: seq<Page>)
    ensures ps == [] <==> hs == []
    ensures var gs := Seqs.GroupBy(Seqs.SortBy(hs, M.Page), M.RawPage);
      |ps| == |gs| && forall g :: 0 <= g < |gs| ==> ps[g].page == gs[g].key
  {
    PagesOf(Seqs.GroupBy(Seqs.SortBy(hs, M.Page), M.RawPage), zid)
  }

  /** Three highlights labelled -1, `None` and -1, in that order, make three
      pages where one was meant: two of them carry the same label. */
  lemma PagesAsWrittenSplits(a: B.Highlight, b: B.Highlight, c: B.Highlight, zid: string)
    requires a.pageIndex == Some(-1) && b.pageIndex == None && c.pageIndex == Some(-1)
    ensures var ps := PagesAsWritten([a, b, c], zid);
      |ps| == 3 && ps[0].page == ps[2].page == Some(-1) && ps[1].page == None &&
      Key(ps[0]) == Key(ps[1]) == Key(ps[2])
  {
    var hs := [a, b, c];
    assert Seqs.SortedBy(hs, M.Page);
    Seqs.SortBySorted(hs, M.Page);
    assert hs[..2] == [a, b] && [a, b][..1] == [a] && [a][..0] == [];
    assert Seqs.GroupBy([a], M.RawPage) == [Seqs.Group(Some(-1), [a])];
    assert Seqs.GroupBy([a, b], M.RawPage) == [Seqs.Group(Some(-1), [a]), Seqs.Group(None, [b])];
    assert Seqs.GroupBy(hs, M.RawPage) == [Seqs.Group(Some(-1), [a]), Seqs.Group(None, [b]), Seqs.Group(Some(-1), [c])];
  }

  /** The grouping loop of `update`, grouped on the key it is sorted on: one
      page per page number, labelled with the page index of its first
      highlight. */
  function Pages(hs: seq<B.Highlight>, zid: string): (ps: seq<Page>)
    ensures ps == [] <==> hs == []
  {
    PagesOf(Seqs.GroupBy(Seqs.SortBy(hs, M.Page), M.Page), zid)
  }

  /** A page holds, for its page number, one entry for each highlight of
      that page in their order in `hs`, and the tags of the last of them. */
  predicate PageMatches(hs: seq<B.Highlight>, p: Page, zid: string) {
    var f := Seqs.Filter(hs, M.Page, Key(p));
    |f| > 0 && p.tags == f[|f| - 1].tags && |p.entries| == |f| &&
    forall j :: 0 <= j < |f| ==> p.entries[j] == EntryOf(f[j], p.page, zid)
  }

  /** Each page holds exactly the highlights of its page number. */
  lemma PagesMatch(hs: seq<B.Highlight>, zid: string)
    ensures forall g :: 0 <= g < |Pages(hs, zid)| ==> PageMatches(hs, Pages(hs, zid)[g], zid)
  {
    forall g | 0 <= g < |Pages(hs, zid)| ensures PageMatches(hs, Pages(hs, zid)[g], zid) {
      PageAt(hs, zid, g);
    }
  }

  /** There is one page per page number, in ascending page order. */
  lemma PagesOrdered(hs: seq<B.Highlight>, zid: string)
    ensures var ps := Pages(hs, zid);
      forall g, h :: 0 <= g < h < |ps| ==> Key(ps[g]) < Key(ps[h])
  {
    var sorted := Seqs.SortBy(hs, M.Page);
    var gs := Seqs.GroupBy(sorted, M.Page);
    assert forall g, h :: 0 <= g < h < |gs| ==> gs[g].key < gs[h].key by {
      Seqs.SortByCorrect(hs, M.Page);
      Seqs.GroupBySortedKeys(sorted, M.Page);
    }
    KeysAscend(gs, zid);
  }

  /** Groups in ascending key order make pages in ascending page order. */
  lemma KeysAscend(gs: seq<Seqs.Group<int, B.Highlight>>, zid: string)
    requires forall g :: 0 <= g < |gs| ==> |gs[g].members| > 0 && M.Page(gs[g].members[0]) == gs[g].key
    requires forall g, h :: 0 <= g < h < |gs| ==> gs[g].key < gs[h].key
    ensures var ps := PagesOf(gs, zid);
      forall g, h :: 0 <= g < h < |ps| ==> Key(ps[g]) < Key(ps[h])
  {
    var ps := PagesOf(gs, zid);
    forall g, h | 0 <= g < h < |ps| ensures Key(ps[g]) < Key(ps[h]) {
      assert Key(ps[g]) == gs[g].key && Key(ps[h]) == gs[h].key;
    }
  }

  lemma PageAt(hs: seq<B.Highlight>, zid: string, g: int)
    requires 0 <= g < |Pages(hs, zid)|
    ensures PageMatches(hs, Pages(hs, zid)[g], zid)
  {
    var sorted := Seqs.SortBy(hs, M.Page);
    var gs := Seqs.GroupBy(sorted, M.Page);
    assert |Pages(hs, zid)| == |gs| && Pages(hs, zid)[g] == PageOf(gs[g].members, gs[g].members[0].pageIndex, zid) by {
      PagesShape(hs, zid);
    }
    var grp := gs[g];
    assert grp.members == Seqs.Filter(sorted, M.Page, grp.key) by {
      Seqs.SortByCorrect(hs, M.Page);
      Seqs.GroupBySortedFilter(sorted, M.Page);
    }
    assert Seqs.Filter(sorted, M.Page, grp.key) == Seqs.Filter(hs, M.Page, grp.key) by {
      Seqs.SortByCorrect(hs, M.Page);
    }
    PageOfGroup(hs, sorted, grp, zid);
  }

  /** The pages are those of the groups of the sorted highlights. */
  lemma PagesShape(hs: seq<B.Highlight>, zid: string)
    ensures var gs := Seqs.GroupBy(Seqs.SortBy(hs, M.Page), M.Page);
      |Pages(hs, zid)| == |gs| &&
      forall g :: 0 <= g < |gs| ==> Pages(hs, zid)[g] == PageOf(gs[g].members, gs[g].members[0].pageIndex, zid)
  {
  }

  /** The page of a group holding the highlights of one page number. */
  lemma PageOfGroup(hs: seq<B.Highlight>, sorted: seq<B.Highlight>, grp: Seqs.Group<int, B.Highlight>, zid: string)
    requires |grp.members| > 0 && grp.members == Seqs.Filter(sorted, M.Page, grp.key)
    requires M.Page(grp.members[0]) == grp.key
    requires Seqs.Filter(sorted, M.Page, grp.key) == Seqs.Filter(hs, M.Page, grp.key)
    ensures var p := PageOf(grp.members, grp.members[0].pageIndex, zid);
      Key(p) == grp.key && PageMatches(hs, p, zid)
  {
    var p := PageOf(grp.members, grp.members[0].pageIndex, zid);
    assert Key(p) == grp.key;
    var f := Seqs.Filter(hs, M.Page, grp.key);
    assert f == grp.members;
    assert forall j :: 0 <= j < |f| ==> p.entries[j] == EntryOf(f[j], p.page, zid);
  }

  /** Every highlight's page number has a page. */
  lemma PagesCover(hs: seq<B.Highlight>, zid: string)
    ensures var ps := Pages(hs, zid);
      forall k :: 0 <= k < |hs| ==> exists g :: 0 <= g < |ps| && Key(ps[g]) == M.Page(hs[k])
  {
    var sorted := Seqs.SortBy(hs, M.Page);
    var gs := Seqs.GroupBy(sorted, M.Page);
    var ps := Pages(hs, zid);
    forall k | 0 <= k < |hs| ensures exists g :: 0 <= g < |ps| && Key(ps[g]) == M.Page(hs[k]) {
      var x := hs[k];
      assert x in sorted by {
        Seqs.SortByMembers(hs, M.Page, x);
      }
      var g := Seqs.GroupOf(sorted, M.Page, x);
      assert M.Page(gs[g].members[0]) == gs[g].key;
      assert Key(ps[g]) == M.Page(x);
    }
  }

  /** Without a highlight labelled -1, grouping on the raw page index is
      grouping on the page number: the loop as written and the corrected
      one make the same pages. */
  lemma PagesAgree(hs: seq<B.Highlight>, zid: string)
    requires forall k :: 0 <= k < |hs| ==> hs[k].pageIndex != Some(-1)
    ensures PagesAsWritten(hs, zid) == Pages(hs, zid)
  {
    var sorted := Seqs.SortBy(hs, M.Page);
    var gs, gp := Seqs.GroupBy(sorted, M.RawPage), Seqs.GroupBy(sorted, M.Page);
    forall i | 0 <= i < |sorted| ensures sorted[i].pageIndex != Some(-1) {
      var x := sorted[i];
      assert x in hs by {
        Seqs.SortByMembers(hs, M.Page, x);
      }
    }
    Seqs.GroupByAgree(sorted, M.RawPage, M.Page);
    forall g | 0 <= g < |gs| ensures gs[g].key == gs[g].members[0].pageIndex {
    }
  }

  // ---------------------------------------------------------------------
  // MarkdownWriter.update

  datatype Note = Note(title: string, alias: string, originalTitle: string, created: int, updated: int, pages: seq<Page>)

  /** `MarkdownWriter.update(node, force, highlights)` without Zotero.
      `stored` is the old note as for `ShouldUpdate`, `zid` the hash of the
      node's name, `titleGetter` the writer's title getter applied to the
      node's name, and `now` the clock. The previous stamp is never
      reported: the second component is always `None`. */
  function Update(md: Meta.Metadata, stored: Option<Option<int>>, force: bool, zid: string,
                  highlights: seq<B.Highlight>, titleGetter: string -> string, now: int): (r: Result<(M.Outcome, M.FileState<Note>), Error>)
    ensures md.lastModified.None? ==> r.Failure?
    ensures r.Failure? <==>
      ShouldUpdate(md, stored, force).Failure? ||
      (ShouldUpdate(md, stored, force) == Success(true) && (md.visibleName.None? || Meta.CreatedTime(md, now).Failure? || Meta.LastModified(md).Failure?))
    ensures ShouldUpdate(md, stored, force) == Success(true) && md.visibleName.None? ==> r == Failure(KeyError("visibleName"))
    ensures ShouldUpdate(md, stored, force) == Success(false) ==> r == Success((M.Outcome(false, None, None), M.Unchanged))
    ensures r.Success? ==> (r.value.1 == M.Unchanged <==> ShouldUpdate(md, stored, force) == Success(false))
    ensures r.Success? ==> r.value.0.previous == None
    ensures r.Success? && r.value.1 != M.Unchanged ==>
      ShouldUpdate(md, stored, force) == Success(true) &&
      r.value.0.current == md.lastModified &&
      (r.value.0.updated <==> r.value.1.Written?) &&
      (r.value.1.Written? <==> highlights != [])
    ensures r.Success? && r.value.1.Written? ==>
      var note := r.value.1.note;
      md.visibleName.Some? && note.originalTitle == titleGetter(md.visibleName.value) && note.title == M.CleanTitle(note.originalTitle) &&
      note.alias == note.title && note.updated == md.lastModified.value && Meta.CreatedTime(md, now) == Success(note.created) &&
      note.pages == Pages(highlights, zid)
  {
    var should :- ShouldUpdate(md, stored, force);
    if !should then Success((M.Outcome(false, None, None), M.Unchanged))
    else
      var pages := Pages(highlights, zid);
      var name :- Meta.Name(md);
      var original := titleGetter(name);
      var title := M.CleanTitle(original);
      var created :- Meta.CreatedTime(md, now);
      var lm :- Meta.LastModified(md);
      if pages != [] then Success((M.Outcome(true, None, Some(lm)), M.Written(Note(title, title, original, created, lm, pages))))
      else Success((M.Outcome(false, None, Some(lm)), M.Absent))
  }

  /** Since no previous stamp is reported, `update_notes` marks a node as
      freshly written exactly when `update` wrote its note. */
  lemma FreshWhenWritten(md: Meta.Metadata, stored: Option<Option<int>>, force: bool, zid: string,
                         highlights: seq<B.Highlight>, titleGetter: string -> string, now: int)
    requires Update(md, stored, force, zid, highlights, titleGetter, now).Success?
    ensures var o := Update(md, stored, force, zid, highlights, titleGetter, now).value.0;
      M.MarkOf(true, o) == M.Fresh <==> o.updated
  {
  }

  // ---------------------------------------------------------------------
  // Title getters

  /** `paper_title_getter(x)`: the last `" - "` part of the stripped
      basename of the name. */
  function PaperTitle(name: string): (t: string)
    ensures '/' !in t && !Contains(t, M.Separator)
    ensures EndsWith(M.Stripped(Basename(name)), t)
  {
    var t := M.PaperTitle(Basename(name));
    assert '/' !in t by {
      var s := M.Stripped(Basename(name));
      assert t == s[|s| - |t|..];
      assert forall i :: 0 <= i < |t| ==> t[i] == s[|s| - |t| + i];
    }
    t
  }

  /** `book_title_getter(x)`: the stripped basename split at its first
      `" - "` only, which gives the same first part as splitting at every
      one. */
  function BookTitle(name: string): (t: string)
    ensures t == M.BookTitle(Basename(name))
    ensures '/' !in t && StartsWith(M.Stripped(Basename(name)), t)
  {
    var s := M.Stripped(Basename(name));
    SplitOnceFirst(s, M.Separator);
    var t := SplitOnce(s, M.Separator)[0];
    assert t == M.BookTitle(Basename(name));
    assert '/' !in t by {
      assert forall i :: 0 <= i < |t| ==> t[i] == s[..|t|][i];
    }
    t
  }
}
