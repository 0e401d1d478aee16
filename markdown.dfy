/** `rmrf.markdown`: the Markdown writer over the nodes of `rmrf.fs`. What it
    decides is modelled here: the title of a note from a document name, when
    a note is stale, the page sections a note holds, how a text highlight is
    rendered, and which nodes the tree walk of `update_notes` hands to the
    writer. Reading and writing files, hashing, templating and the clock
    are inputs. The title rules and the tree walk are shared with
    `rmrf.export.markdown`. */
module Markdown {
  import opened Common
  import opened Strings
  import Seqs
  import Meta
  import B = BaseFs

  // ---------------------------------------------------------------------
  // Titles

  /** `x.replace(".pdf", "").replace(".rm", "").replace(".epub", "")` */
  function Stripped(x: string): (r: string)
    ensures '/' !in x ==> '/' !in r
  {
    var r := RemoveAll(RemoveAll(RemoveAll(x, ".pdf"), ".rm"), ".epub");
    if '/' in x then r
    else
      RemoveAllFrom(x, ".pdf", '/');
      RemoveAllFrom(RemoveAll(x, ".pdf"), ".rm", '/');
      RemoveAllFrom(RemoveAll(RemoveAll(x, ".pdf"), ".rm"), ".epub", '/');
      r
  }

  const Separator := " - "

  /** `paper_title_getter(x)`: the last `" - "` part of the stripped name,
      the whole of it when it has no separator. */
  function PaperTitle(x: string): (t: string)
    ensures !Contains(t, Separator)
    ensures EndsWith(Stripped(x), t)
    ensures !Contains(Stripped(x), Separator) ==> t == Stripped(x)
  {
    var s := Stripped(x);
    var parts := Split(s, Separator);
    SplitPartsFree(s, Separator, |parts| - 1);
    SplitLast(s, Separator);
    assert !Contains(s, Separator) ==> parts == [s] by {
      if !Contains(s, Separator) {
        SplitAbsent(s, Separator);
      }
    }
    parts[|parts| - 1]
  }

  /** `book_title_getter(x)`: the first `" - "` part of the stripped name. */
  function BookTitle(x: string): (t: string)
    ensures !Contains(t, Separator)
    ensures StartsWith(Stripped(x), t)
    ensures !Contains(Stripped(x), Separator) ==> t == Stripped(x)
  {
    var s := Stripped(x);
    SplitFirst(s, Separator);
    assert !Contains(s, Separator) ==> Split(s, Separator) == [s] by {
      if !Contains(s, Separator) {
        SplitAbsent(s, Separator);
      }
    }
    Split(s, Separator)[0]
  }

  /** A stripped name with a separator is rebuilt from the paper title: some
      front part, the separator, then the title. */
  lemma PaperTitleRebuilds(x: string)
    requires Contains(Stripped(x), Separator)
    ensures exists front :: Stripped(x) == front + Separator + PaperTitle(x)
  {
    var s := Stripped(x);
    var parts := Split(s, Separator);
    SplitSeveral(s, Separator);
    SplitLast(s, Separator);
    assert s == Join(parts[..|parts| - 1], Separator) + Separator + PaperTitle(x);
  }

  /** A stripped name with a separator is rebuilt from the book title: the
      title, the separator, then the rest. */
  lemma BookTitleRebuilds(x: string)
    requires Contains(Stripped(x), Separator)
    ensures exists rest :: Stripped(x) == BookTitle(x) + Separator + rest
  {
    var s := Stripped(x);
    SplitSeveral(s, Separator);
    SplitHead(s, Separator);
    assert s == BookTitle(x) + Separator + Join(Split(s, Separator)[1..], Separator);
  }

  /** `original_title.replace('"', " ").replace("'", " ")` */
  function CleanTitle(t: string): (r: string)
    ensures |r| == |t| && '"' !in r && '\'' !in r
    ensures forall i :: 0 <= i < |t| && t[i] != '"' && t[i] != '\'' ==> r[i] == t[i]
    ensures forall i :: 0 <= i < |t| && (t[i] == '"' || t[i] == '\'') ==> r[i] == ' '
  {
    ReplaceChar(ReplaceChar(t, '"', ' '), '\'', ' ')
  }

  /** A title without quotes is kept as it is, so cleaning twice is cleaning
      once. */
  lemma CleanTitleIdempotent(t: string)
    ensures '"' !in t && '\'' !in t ==> CleanTitle(t) == t
    ensures CleanTitle(CleanTitle(t)) == CleanTitle(t)
  {
    var r := CleanTitle(t);
    assert CleanTitle(r) == r by {
      assert forall i :: 0 <= i < |r| ==> r[i] != '"' && r[i] != '\'';
    }
    if '"' !in t && '\'' !in t {
      assert forall i :: 0 <= i < |t| ==> t[i] != '"' && t[i] != '\'';
    }
  }

  // ---------------------------------------------------------------------
  // The highlight template

  /** The lower-case hexadecimal digit of `0 <= n < 16`. */
  function HexDigit(n: int): (c: char)
    requires 0 <= n < 16
    ensures '0' <= c <= '9' || 'a' <= c <= 'f'
  {
    if n < 10 then ('0' as int + n) as char else ('a' as int + n - 10) as char
  }

  /** The value of a hexadecimal digit. */
  function DigitValue(c: char): int {
    if '0' <= c <= '9' then c as int - '0' as int else c as int - 'a' as int + 10
  }

  /** `format(b, "02x")` on a byte: two lower-case hexadecimal digits. */
  function Hex2(b: Byte): (s: string)
    ensures |s| == 2
    ensures forall i :: 0 <= i < 2 ==> '0' <= s[i] <= '9' || 'a' <= s[i] <= 'f'
  {
    [HexDigit(b / 16), HexDigit(b % 16)]
  }

  /** Two hexadecimal digits read back as a number. */
  function ReadHex2(s: string): int
    requires |s| == 2
  {
    DigitValue(s[0]) * 16 + DigitValue(s[1])
  }

  lemma Hex2RoundTrip(b: Byte)
    ensures ReadHex2(Hex2(b)) == b
  {
  }

  const MarkOpen := "\n<mark style=\"background-color: #"
  const MarkMiddle := ";\">"
  const MarkClose := "</mark>\n"

  /** `Highlight_Template` filled with a text highlight's text and the first
      three components of its colour. */
  function MarkLine(text: string, color: Rgba): (m: string)
    ensures |m| == |MarkOpen| + 6 + |MarkMiddle| + |text| + |MarkClose|
  {
    MarkOpen + Hex2(color.0) + Hex2(color.1) + Hex2(color.2) + MarkMiddle + text + MarkClose
  }

  /** The rendered mark gives back the colour it was made with, and the
      text. */
  lemma MarkLineReadBack(text: string, color: Rgba)
    ensures var m, k := MarkLine(text, color), |MarkOpen|;
      ReadHex2(m[k..k + 2]) == color.0 && ReadHex2(m[k + 2..k + 4]) == color.1 && ReadHex2(m[k + 4..k + 6]) == color.2 &&
      m[k + 6 + |MarkMiddle|..|m| - |MarkClose|] == text
  {
    var m, k := MarkLine(text, color), |MarkOpen|;
    assert m[k..k + 2] == Hex2(color.0);
    assert m[k + 2..k + 4] == Hex2(color.1);
    assert m[k + 4..k + 6] == Hex2(color.2);
    assert m[k + 6 + |MarkMiddle|..|m| - |MarkClose|] == text;
    Hex2RoundTrip(color.0);
    Hex2RoundTrip(color.1);
    Hex2RoundTrip(color.2);
  }

  // ---------------------------------------------------------------------
  // Page sections

  /** `"#" + tag.replace(" ", "_")` */
  function TagWord(tag: string): (w: string)
    ensures |w| == |tag| + 1 && w[0] == '#' && ' ' !in w
    ensures ' ' !in tag ==> w == "#" + tag
  {
    var r := ReplaceChar(tag, ' ', '_');
    assert ' ' !in tag ==> r == tag by {
      if ' ' !in tag {
        assert forall i :: 0 <= i < |tag| ==> tag[i] != ' ';
      }
    }
    "#" + r
  }

  /** The tag line of a page section, for the order in which the set of
      tags is iterated: empty without tags. */
  function TagLine(tags: seq<string>): (line: string)
    ensures line == [] <==> tags == []
    ensures tags != [] ==> StartsWith(line, "tags: ")
  {
    if tags == [] then []
    else "tags: " + Join(seq(|tags|, i requires 0 <= i < |tags| => TagWord(tags[i])), ", ")
  }

  /** The sort and group key `x.page_index`. */
  function RawPage(h: B.Highlight): Option<int> {
    h.pageIndex
  }

  /** A highlight's page index, with `None` read as -1. */
  function Page(h: B.Highlight): int {
    if h.pageIndex.Some? then h.pageIndex.value else -1
  }

  /** `os.path.join(a, b)` for a `b` that is not absolute. */
  function PathJoin(a: string, b: string): string {
    if a == [] then b else if a[|a| - 1] == '/' then a + b else a + "/" + b
  }

  /** The link of an image copied into the note's static directory `dir`. */
  function Link(dir: string, imagePath: string): (l: string)
    ensures StartsWith(l, "statics/")
    ensures Basename(l) == Basename(imagePath)
  {
    var b := Basename(imagePath);
    LinkBasename(dir, b);
    "statics/" + PathJoin(dir, b)
  }

  lemma LinkBasename(dir: string, b: string)
    requires '/' !in b
    ensures Basename("statics/" + PathJoin(dir, b)) == b
  {
    assert forall i :: 0 <= i < |b| ==> b[i] != '/';
    if dir == [] {
      BasenameAfter("statics/", b);
    } else if dir[|dir| - 1] == '/' {
      assert "statics/" + PathJoin(dir, b) == ("statics/" + dir) + b;
      BasenameAfter("statics/" + dir, b);
    } else {
      assert "statics/" + PathJoin(dir, b) == ("statics/" + dir + "/") + b;
      BasenameAfter("statics/" + dir + "/", b);
    }
  }

  datatype Item =
    | ImageItem(page: Option<int>, link: string)    // `![Image (page ...)](link)`
    | TextItem(line: string)                        // a filled `Highlight_Template`

  /** A page section: its page, the tags of its last highlight, and one item
      per highlight. */
  datatype Section = Section(page: Option<int>, tags: set<string>, items: seq<Item>)

  function ItemOf(h: B.Highlight, page: Option<int>, dir: string): Item {
    match h
    case ImageHighlight(_, _, _, path) => ImageItem(page, Link(dir, path))
    case TextHighlight(_, _, _, text, color) => TextItem(MarkLine(text, color))
  }

  function SectionOf(g: Seqs.Group<Option<int>, B.Highlight>, dir: string): (s: Section)
    requires |g.members| > 0
  {
    Section(g.key, g.members[|g.members| - 1].tags,
            seq(|g.members|, i requires 0 <= i < |g.members| => ItemOf(g.members[i], g.key, dir)))
  }

  /** `sorted(highlights, key=lambda x: x.page_index)`: two or more records,
      one of them without a page index, make the sort compare `None` and
      raise. */
  function SortPages(hs: seq<B.Highlight>): (r: Result<seq<B.Highlight>, Error>)
    ensures r.Failure? <==> |hs| >= 2 && exists k :: 0 <= k < |hs| && hs[k].pageIndex.None?
    ensures r.Failure? ==> r.error == TypeError
  {
    if |hs| >= 2 && exists k :: 0 <= k < |hs| && hs[k].pageIndex.None? then Failure(TypeError)
    else Success(Seqs.SortBy(hs, Page))
  }

  /** The page sections of `MarkdownWriter.update`, for the note's static
      directory `dir`. */
  function Sections(hs: seq<B.Highlight>, dir: string): Result<seq<Section>, Error> {
    var sorted :- SortPages(hs);
    var gs := Seqs.GroupBy(sorted, RawPage);
    Success(seq(|gs|, i requires 0 <= i < |gs| => SectionOf(gs[i], dir)))
  }

  /** The section for page `k` (-1 for no page index): the highlights of
      that page, in their order in `hs`. */
  function PageMembers(hs: seq<B.Highlight>, k: int): seq<B.Highlight> {
    Seqs.Filter(hs, Page, k)
  }

  function SectionPage(s: Section): int {
    if s.page.Some? then s.page.value else -1
  }

  /** With two highlights or more, grouping on the raw page index makes the
      same groups as grouping on the page number, each holding the
      highlights of its page in their order in `hs`, in ascending page
      order. */
  lemma RawGroups(hs: seq<B.Highlight>)
    requires |hs| >= 2 && SortPages(hs).Success?
    ensures var sorted := SortPages(hs).value;
      var gs, gp := Seqs.GroupBy(sorted, RawPage), Seqs.GroupBy(sorted, Page);
      |gs| == |gp| &&
      (forall g :: 0 <= g < |gs| ==> gs[g].members == gp[g].members && gs[g].key == Some(gp[g].key)) &&
      (forall g :: 0 <= g < |gp| ==> gp[g].members == Seqs.Filter(hs, Page, gp[g].key)) &&
      forall g, h :: 0 <= g < h < |gp| ==> gp[g].key < gp[h].key
  {
    var sorted := SortPages(hs).value;
    var gs, gp := Seqs.GroupBy(sorted, RawPage), Seqs.GroupBy(sorted, Page);
    NoneFree(hs, sorted);
    Seqs.GroupByAgree(sorted, RawPage, Page);
    Seqs.GroupBySortedKeys(sorted, Page);
    Seqs.GroupBySortedFilter(sorted, Page);
    forall g | 0 <= g < |gs| ensures gs[g].key == Some(gp[g].key) {
      var m := gs[g].members[0];
      assert m == gp[g].members[0];
      Seqs.GroupByIn(sorted, RawPage, g, 0);
    }
  }

  /** With one highlight or none, there is one section or none. */
  lemma FewGroups(hs: seq<B.Highlight>)
    requires |hs| <= 1
    ensures SortPages(hs) == Success(hs)
    ensures Seqs.GroupBy(hs, RawPage) == if hs == [] then [] else [Seqs.Group(hs[0].pageIndex, hs)]
  {
    Seqs.SortBySorted(hs, Page);
    if |hs| == 1 {
      assert hs[..0] == [];
      assert [] + [Seqs.Group(hs[0].pageIndex, [hs[0]])] == [Seqs.Group(hs[0].pageIndex, hs)];
    }
  }

  /** The sections are those of the groups of the sorted highlights. */
  lemma SectionsShape(hs: seq<B.Highlight>, dir: string)
    requires SortPages(hs).Success?
    ensures var gs := Seqs.GroupBy(SortPages(hs).value, RawPage);
      Sections(hs, dir).Success? && |Sections(hs, dir).value| == |gs| &&
      forall g :: 0 <= g < |gs| ==> Sections(hs, dir).value[g] == SectionOf(gs[g], dir)
  {
  }

  /** There is one section per distinct page, in ascending page order; a
      page index of `None` can only appear alone. */
  lemma SectionsOrdered(hs: seq<B.Highlight>, dir: string)
    requires Sections(hs, dir).Success?
    ensures var ss := Sections(hs, dir).value;
      (ss == [] <==> hs == []) &&
      (|ss| >= 2 ==> forall g :: 0 <= g < |ss| ==> ss[g].page.Some?) &&
      forall g, h :: 0 <= g < h < |ss| ==> SectionPage(ss[g]) < SectionPage(ss[h])
  {
    SectionsShape(hs, dir);
    if |hs| >= 2 {
      OrderedMany(hs, dir);
    } else {
      FewGroups(hs);
    }
  }

  lemma OrderedMany(hs: seq<B.Highlight>, dir: string)
    requires |hs| >= 2 && SortPages(hs).Success?
    ensures var ss := Sections(hs, dir).value;
      |ss| > 0 && (forall g :: 0 <= g < |ss| ==> ss[g].page.Some?) &&
      forall g, h :: 0 <= g < h < |ss| ==> SectionPage(ss[g]) < SectionPage(ss[h])
  {
    SectionsShape(hs, dir);
    var ss := Sections(hs, dir).value;
    var sorted := SortPages(hs).value;
    var gs, gp := Seqs.GroupBy(sorted, RawPage), Seqs.GroupBy(sorted, Page);
    RawGroups(hs);
    forall g | 0 <= g < |ss| ensures ss[g].page == Some(gp[g].key) {
      assert ss[g].page == gs[g].key;
    }
  }

  /** The section of a group holding the highlights of one page, in their
      order in `hs`, matches that page. */
  predicate SectionMatches(hs: seq<B.Highlight>, s: Section) {
    var f := PageMembers(hs, SectionPage(s));
    |s.items| == |f| > 0 && s.tags == f[|f| - 1].tags
  }

  lemma OneSection(hs: seq<B.Highlight>, grp: Seqs.Group<Option<int>, B.Highlight>, dir: string, k: int)
    requires |grp.members| > 0 && grp.members == PageMembers(hs, k)
    requires (if grp.key.Some? then grp.key.value else -1) == k
    ensures SectionMatches(hs, SectionOf(grp, dir))
  {
  }

  lemma SingleSection(h: B.Highlight, dir: string)
    ensures SectionMatches([h], SectionOf(Seqs.Group(h.pageIndex, [h]), dir))
  {
    Seqs.FilterAppend([], h, Page, Page(h));
    assert [] + [h] == [h];
    assert Seqs.Filter([], Page, Page(h)) == [];
  }

  /** Every section holds one item for each highlight of its page and the
      tags of the last of them in `hs`. */
  lemma SectionsContent(hs: seq<B.Highlight>, dir: string)
    requires Sections(hs, dir).Success?
    ensures forall g :: 0 <= g < |Sections(hs, dir).value| ==> SectionMatches(hs, Sections(hs, dir).value[g])
  {
    if hs == [] {
      SectionsOrdered(hs, dir);
    } else {
      forall g | 0 <= g < |Sections(hs, dir).value| ensures SectionMatches(hs, Sections(hs, dir).value[g]) {
        if |hs| >= 2 {
          ContentMany(hs, dir, g);
        } else {
          ContentOne(hs, dir, g);
        }
      }
    }
  }

  lemma ContentMany(hs: seq<B.Highlight>, dir: string, g: int)
    requires |hs| >= 2 && Sections(hs, dir).Success?
    requires 0 <= g < |Sections(hs, dir).value|
    ensures SectionMatches(hs, Sections(hs, dir).value[g])
  {
    var sorted := SortPages(hs).value;
    var gs, gp := Seqs.GroupBy(sorted, RawPage), Seqs.GroupBy(sorted, Page);
    assert Sections(hs, dir).value[g] == SectionOf(gs[g], dir) by {
      SectionsShape(hs, dir);
    }
    assert gs[g].members == PageMembers(hs, gp[g].key) && gs[g].key == Some(gp[g].key) by {
      RawGroups(hs);
    }
    OneSection(hs, gs[g], dir, gp[g].key);
  }

  lemma ContentOne(hs: seq<B.Highlight>, dir: string, g: int)
    requires |hs| == 1 && Sections(hs, dir).Success?
    requires 0 <= g < |Sections(hs, dir).value|
    ensures SectionMatches(hs, Sections(hs, dir).value[g])
  {
    var h := hs[0];
    assert hs == [h];
    OneHighlight(h, dir);
    SingleSection(h, dir);
  }

  lemma OneHighlight(h: B.Highlight, dir: string)
    ensures Sections([h], dir) == Success([SectionOf(Seqs.Group(h.pageIndex, [h]), dir)])
  {
    var ss := Sections([h], dir).value;
    assert Sections([h], dir).Success? && |ss| == 1 && ss[0] == SectionOf(Seqs.Group(h.pageIndex, [h]), dir) by {
      FewGroups([h]);
      SectionsShape([h], dir);
    }
    assert ss == [ss[0]];
  }

  /** Every highlight's page has a section. */
  lemma SectionsCover(hs: seq<B.Highlight>, dir: string)
    requires Sections(hs, dir).Success?
    ensures var ss := Sections(hs, dir).value;
      forall k :: 0 <= k < |hs| ==> exists g :: 0 <= g < |ss| && ss[g].page == hs[k].pageIndex
  {
    var sorted := SortPages(hs).value;
    var ss := Sections(hs, dir).value;
    forall k | 0 <= k < |hs| ensures exists g :: 0 <= g < |ss| && ss[g].page == hs[k].pageIndex {
      var x := hs[k];
      assert x in sorted by {
        Seqs.SortByMembers(hs, Page, x);
      }
      var g := Seqs.GroupOf(sorted, RawPage, x);
      assert ss[g].page == RawPage(x) by {
        SectionsShape(hs, dir);
      }
    }
  }

  /** Sorted highlights without `None` come from highlights without
      `None`. */
  lemma NoneFree(hs: seq<B.Highlight>, sorted: seq<B.Highlight>)
    requires |hs| >= 2 && SortPages(hs) == Success(sorted)
    ensures forall i :: 0 <= i < |sorted| ==> sorted[i].pageIndex.Some?
    ensures Seqs.SortedBy(sorted, Page)
    ensures forall k :: Seqs.Filter(sorted, Page, k) == Seqs.Filter(hs, Page, k)
  {
    Seqs.SortByCorrect(hs, Page);
    forall i | 0 <= i < |sorted| ensures sorted[i].pageIndex.Some? {
      var x := sorted[i];
      Seqs.FilterIn(sorted, Page, Page(x), x);
      Seqs.FilterIn(hs, Page, Page(x), x);
    }
  }

  // ---------------------------------------------------------------------
  // MarkdownWriter.update

  /** The triple `update` returns: whether a note was written, the
      `updated:` stamp found in the old note, and the node's last-modified
      time. */
  datatype Outcome = Outcome(updated: bool, previous: Option<int>, current: Option<int>)

  /** The note file after `update`: left alone, absent (the old note is
      removed before the new one is built), or written. */
  datatype FileState<N> = Unchanged | Absent | Written(note: N)

  datatype Note = Note(title: string, alias: string, originalTitle: string, created: int, updated: int, sections: seq<Section>)

  /** The old note is left alone: it is not forced and its `updated:`
      stamp is at least the node's last modification. */
  predicate Stale(md: Meta.Metadata, stored: Option<Option<int>>, force: bool) {
    !force && stored.Some? && stored.value.Some? && Meta.LastModified(md).Success? && stored.value.value >= md.lastModified.value
  }

  /** `MarkdownWriter.update(node, force)`. `stored` is the old note: `None`
      when there is none, `Some(None)` when it has no `updated:` stamp;
      `dir` is the hash of the node's name; `highlights` are the node's
      highlights; `titleGetter` is the writer's title getter and `now` the
      clock. */
  function Update(md: Meta.Metadata, stored: Option<Option<int>>, force: bool, dir: string,
                  highlights: seq<B.Highlight>, titleGetter: string -> string, now: int): (r: Result<(Outcome, FileState<Note>), Error>)
    ensures r.Failure? <==>
      md.visibleName.None? ||
      (stored.Some? && stored.value.Some? && Meta.LastModified(md).Failure?) ||
      (!Stale(md, stored, force) && (SortPages(highlights).Failure? || Meta.CreatedTime(md, now).Failure? || Meta.LastModified(md).Failure?))
    ensures md.visibleName.None? ==> r == Failure(KeyError("visibleName"))
    ensures md.visibleName.Some? && stored.Some? && stored.value.Some? && md.lastModified.None? ==>
      r == Failure(KeyError("lastModified"))
    ensures md.visibleName.Some? && Stale(md, stored, force) ==>
      r == Success((Outcome(false, stored.value, None), Unchanged))
    ensures r.Success? ==> (r.value.1 == Unchanged <==> Stale(md, stored, force))
    ensures r.Success? && r.value.1 != Unchanged ==>
      r.value.0.current == md.lastModified && r.value.0.current.Some? &&
      r.value.0.previous == (if stored.Some? then stored.value else None) &&
      (r.value.0.updated <==> r.value.1.Written?) &&
      (r.value.1.Written? <==> highlights != [])
    ensures r.Success? && r.value.1.Written? ==>
      var note := r.value.1.note;
      note.originalTitle == titleGetter(md.visibleName.value) && note.title == CleanTitle(note.originalTitle) &&
      note.alias == note.title && note.updated == md.lastModified.value && Meta.CreatedTime(md, now) == Success(note.created) &&
      Sections(highlights, dir) == Success(note.sections)
  {
    var name :- Meta.Name(md);
    var previous := if stored.Some? then stored.value else None;
    var stale :- if previous.Some? then
                   (var lm :- Meta.LastModified(md); Success(previous.value >= lm && !force))
                 else Success(false);
    if stale then Success((Outcome(false, previous, None), Unchanged))
    else
      var sections :- Sections(highlights, dir);
      SectionsOrdered(highlights, dir);
      var original := titleGetter(name);
      var title := CleanTitle(original);
      var created :- Meta.CreatedTime(md, now);
      var lm :- Meta.LastModified(md);
      if sections != [] then Success((Outcome(true, previous, Some(lm)), Written(Note(title, title, original, created, lm, sections))))
      else Success((Outcome(false, previous, Some(lm)), Absent))
  }

  // ---------------------------------------------------------------------
  // update_notes

  /** A snapshot of the hierarchy: a node's name and its children. */
  datatype Tree = Tree(name: string, children: seq<Tree>)

  /** The mark `update_notes` gives a node in the printed tree. */
  datatype Mark = Fresh | Kept | Skipped

  function MarkOf(called: bool, o: Outcome): (m: Mark)
    ensures m == Fresh <==> called && o.updated && o.previous != o.current
    ensures m == Skipped <==> !called
  {
    if !called then Skipped
    else if o.updated && o.previous != o.current then Fresh
    else Kept
  }

  /** The walk goes below a node when its path and the prefix extend one
      another. */
  predicate Descends(path: string, prefix: string) {
    StartsWith(path, prefix) || StartsWith(prefix, path)
  }

  /** The paths `update_notes` hands to `writer.update`, in call order, for
      the subtree `t` at `path`. */
  function Calls(t: Tree, path: string, prefix: string): (cs: seq<string>)
    ensures forall i :: 0 <= i < |cs| ==> StartsWith(cs[i], prefix)
    decreases t, 1
  {
    (if StartsWith(path, prefix) then [path] else []) +
    (if Descends(path, prefix) then ChildCalls(t.children, path, prefix) else [])
  }

  function ChildCalls(cs: seq<Tree>, path: string, prefix: string): (r: seq<string>)
    ensures forall i :: 0 <= i < |r| ==> StartsWith(r[i], prefix)
    decreases cs, 0
  {
    if cs == [] then []
    else ChildCalls(cs[..|cs| - 1], path, prefix) + Calls(cs[|cs| - 1], path + "/" + cs[|cs| - 1].name, prefix)
  }

  /** The paths of the subtree `t` at `path`, in pre-order. */
  function Paths(t: Tree, path: string): (ps: seq<string>)
    ensures forall i :: 0 <= i < |ps| ==> StartsWith(ps[i], path)
    decreases t, 1
  {
    [path] + ChildPaths(t.children, path)
  }

  function ChildPaths(cs: seq<Tree>, path: string): (ps: seq<string>)
    ensures forall i :: 0 <= i < |ps| ==> StartsWith(ps[i], path)
    decreases cs, 0
  {
    if cs == [] then []
    else
      var last := cs[|cs| - 1];
      var ps := Paths(last, path + "/" + last.name);
      assert forall i :: 0 <= i < |ps| ==> StartsWith(ps[i], path) by {
        forall i | 0 <= i < |ps| ensures StartsWith(ps[i], path) {
          assert ps[i][..|path|] == (path + "/" + last.name)[..|path|];
        }
      }
      ChildPaths(cs[..|cs| - 1], path) + ps
  }

  /** The paths that start with the prefix, in order. */
  function WithPrefix(ps: seq<string>, prefix: string): seq<string> {
    if ps == [] then []
    else WithPrefix(ps[..|ps| - 1], prefix) + (if StartsWith(ps[|ps| - 1], prefix) then [ps[|ps| - 1]] else [])
  }

  lemma {:induction false} WithPrefixAppend(a: seq<string>, b: seq<string>, prefix: string)
    ensures WithPrefix(a + b, prefix) == WithPrefix(a, prefix) + WithPrefix(b, prefix)
    decreases |b|
  {
    if b == [] {
      assert a + b == a;
    } else {
      WithPrefixAppend(a, b[..|b| - 1], prefix);
      assert (a + b)[..|a + b| - 1] == a + b[..|b| - 1];
      assert (a + b)[|a + b| - 1] == b[|b| - 1];
    }
  }

  lemma {:induction false} WithPrefixNone(ps: seq<string>, prefix: string)
    requires forall i :: 0 <= i < |ps| ==> !StartsWith(ps[i], prefix)
    ensures WithPrefix(ps, prefix) == []
    decreases |ps|
  {
    if ps != [] {
      WithPrefixNone(ps[..|ps| - 1], prefix);
    }
  }

  /** Two prefixes of one string extend one another. */
  lemma PrefixesRelated(q: string, a: string, b: string)
    requires StartsWith(q, a) && StartsWith(q, b)
    ensures Descends(a, b)
  {
    if |a| <= |b| {
      assert b[..|a|] == q[..|a|];
    } else {
      assert a[..|b|] == q[..|b|];
    }
  }

  /** `update_notes` hands to the writer exactly the nodes whose path starts
      with the prefix, in pre-order: pruning never skips one of them. */
  lemma {:induction false} CallsExactly(t: Tree, path: string, prefix: string)
    ensures Calls(t, path, prefix) == WithPrefix(Paths(t, path), prefix)
    decreases t, 1
  {
    var kids := ChildPaths(t.children, path);
    assert Paths(t, path) == [path] + kids;
    WithPrefixAppend([path], kids, prefix);
    assert WithPrefix([path], prefix) == (if StartsWith(path, prefix) then [path] else []) by {
      assert [path][..0] == [];
    }
    if Descends(path, prefix) {
      ChildCallsExactly(t.children, path, prefix);
    } else {
      PrunedNone(t.children, path, prefix);
    }
  }

  /** Below a path unrelated to the prefix, no path starts with the prefix. */
  lemma PrunedNone(cs: seq<Tree>, path: string, prefix: string)
    requires !Descends(path, prefix)
    ensures WithPrefix(ChildPaths(cs, path), prefix) == []
  {
    var kids := ChildPaths(cs, path);
    forall i | 0 <= i < |kids| ensures !StartsWith(kids[i], prefix) {
      if StartsWith(kids[i], prefix) {
        PrefixesRelated(kids[i], path, prefix);
      }
    }
    WithPrefixNone(kids, prefix);
  }

  lemma {:induction false} ChildCallsExactly(cs: seq<Tree>, path: string, prefix: string)
    ensures ChildCalls(cs, path, prefix) == WithPrefix(ChildPaths(cs, path), prefix)
    decreases cs, 0
  {
    if cs != [] {
      var last := cs[|cs| - 1];
      ChildCallsExactly(cs[..|cs| - 1], path, prefix);
      CallsExactly(last, path + "/" + last.name, prefix);
      WithPrefixAppend(ChildPaths(cs[..|cs| - 1], path), Paths(last, path + "/" + last.name), prefix);
    }
  }

  /** `update(fs, prefix=prefix, ...)`: the walk starts at the root, whose
      path is "/Root". */
  function UpdateAll(root: Tree, prefix: string): (cs: seq<string>)
    ensures cs == WithPrefix(Paths(root, "/Root"), prefix)
  {
    CallsExactly(root, "/Root", prefix);
    Calls(root, "/Root", prefix)
  }
}
