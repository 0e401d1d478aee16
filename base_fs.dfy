/** The file records of `rmrf.base.fs`: like the nodes of `rmrf.fs`, but a
    file also keeps each page's scroll offset, its page tags and the decoded
    blocks of its `.rm` page files, and classifies blocks by their item's
    value rather than by raw bytes. The highlight records the exporters
    consume are declared here too. */
module BaseFs {
  import opened Common
  import opened Meta
  import H = Hierarchy
  import Seqs
  import Scene
  import Strings

  /** What `read_page_map` leaves in a file. */
  datatype Pages = Pages(
    id2page: map<string, int>,
    scroll: map<int, int>,                         // `page_scroll`, read with default 0
    tags: map<int, set<string>>,                   // `page_tags`, read with default {}
    blocks: map<Option<int>, seq<Scene.Block>>)    // `rm_blocks`

  /** The scroll offsets recorded by the first loop of `read_page_map`:
      entry `i` of `cPages.pages` with a `verticalScroll` records its value
      under `i`. */
  function Scrolls(ps: seq<CPage>): map<int, int> {
    if ps == [] then map[]
    else
      var i := |ps| - 1;
      var m := Scrolls(ps[..i]);
      if ps[i].verticalScroll.Some? then m[i := ps[i].verticalScroll.value] else m
  }

  /** The tag loop of `read_page_map`: each entry adds its name to the tags
      of the page its page id maps to; an unmapped page id raises. */
  function AddTags(tags: map<int, set<string>>, id2page: map<string, int>, items: seq<PageTag>): Result<map<int, set<string>>, Error> {
    if items == [] then Success(tags)
    else
      var t :- AddTags(tags, id2page, items[..|items| - 1]);
      var item := items[|items| - 1];
      if item.pageId !in id2page then Failure(KeyError(item.pageId))
      else
        var p := id2page[item.pageId];
        Success(t[p := TagsAt(t, p) + {item.name}])
  }

  /** `page_tags[p]` on the default dictionary. */
  function TagsAt(tags: map<int, set<string>>, p: int): set<string> {
    if p in tags then tags[p] else {}
  }

  /** The page-file loop of `read_page_map`, over the decoded blocks of each
      `.rm` file of the document's directory; a later file with the same key
      replaces an earlier one. */
  function BlocksByPage(id2page: map<string, int>, files: seq<(string, seq<Scene.Block>)>): map<Option<int>, seq<Scene.Block>> {
    if files == [] then map[]
    else
      var f := files[|files| - 1];
      BlocksByPage(id2page, files[..|files| - 1])[H.PageOfFile(id2page, f.0) := f.1]
  }

  /** All of `read_page_map`, starting from the page-id map `m0`. `files`
      is `None` when the document has no directory of page files. */
  function ReadPages(m0: map<string, int>, md: Metadata, files: Option<seq<(string, seq<Scene.Block>)>>): Result<Pages, Error> {
    var id2page :- PageMap(m0, md);
    var scroll := if md.cPages.Some? then Scrolls(md.cPages.value) else map[];
    var tags :- if md.pageTags.Some? then AddTags(map[], id2page, md.pageTags.value) else Success(map[]);
    var blocks := if files.Some? then BlocksByPage(id2page, files.value) else map[];
    Success(Pages(id2page, scroll, tags, blocks))
  }

  // ---------------------------------------------------------------------
  // What each loop records.

  /** Page `i` scrolls by the `verticalScroll` of entry `i` of `cPages`,
      and by 0 when that entry has none or there is no entry `i`. */
  lemma {:induction false} ScrollsLookup(ps: seq<CPage>, i: int)
    ensures i in Scrolls(ps) <==> 0 <= i < |ps| && ps[i].verticalScroll.Some?
    ensures (if i in Scrolls(ps) then Scrolls(ps)[i] else 0) ==
      (if 0 <= i < |ps| && ps[i].verticalScroll.Some? then ps[i].verticalScroll.value else 0)
    decreases |ps|
  {
    if ps != [] {
      var init := ps[..|ps| - 1];
      ScrollsLookup(init, i);
      if 0 <= i < |init| {
        assert init[i] == ps[i];
      }
    }
  }

  /** The tags fail exactly when some entry's page id is unmapped, with the
      first such id; otherwise a page's tags are its earlier tags plus the
      names of the entries whose page id maps to it. */
  lemma {:induction false} AddTagsLookup(tags: map<int, set<string>>, id2page: map<string, int>, items: seq<PageTag>, p: int, name: string)
    ensures AddTags(tags, id2page, items).Success? <==> forall k :: 0 <= k < |items| ==> items[k].pageId in id2page
    ensures AddTags(tags, id2page, items).Failure? ==>
      exists k :: 0 <= k < |items| && items[k].pageId !in id2page &&
        (forall j :: 0 <= j < k ==> items[j].pageId in id2page) &&
        AddTags(tags, id2page, items).error == KeyError(items[k].pageId)
    ensures AddTags(tags, id2page, items).Success? ==>
      (name in TagsAt(AddTags(tags, id2page, items).value, p) <==>
        name in TagsAt(tags, p) ||
        exists k :: 0 <= k < |items| && id2page[items[k].pageId] == p && items[k].name == name)
    decreases |items|
  {
    if items != [] {
      var init := items[..|items| - 1];
      var last := items[|items| - 1];
      AddTagsLookup(tags, id2page, init, p, name);
      assert forall k :: 0 <= k < |init| ==> init[k] == items[k];
      if AddTags(tags, id2page, init).Failure? {
        var k :| 0 <= k < |init| && init[k].pageId !in id2page &&
          (forall j :: 0 <= j < k ==> init[j].pageId in id2page) &&
          AddTags(tags, id2page, init).error == KeyError(init[k].pageId);
        assert items[k].pageId !in id2page;
      } else if last.pageId !in id2page {
        assert items[|items| - 1].pageId !in id2page;
      } else {
        var t := AddTags(tags, id2page, init).value;
        if name in TagsAt(tags, p) || exists k :: 0 <= k < |items| && id2page[items[k].pageId] == p && items[k].name == name {
          if !(name in TagsAt(tags, p)) && !(id2page[last.pageId] == p && last.name == name) {
            var k :| 0 <= k < |items| && id2page[items[k].pageId] == p && items[k].name == name;
            assert k < |init| && init[k] == items[k];
          }
        }
      }
    }
  }

  /** Once a prefix of the tag entries raises, so do all of them, with the
      same exception. */
  lemma {:induction false} AddTagsFailureStays(tags: map<int, set<string>>, id2page: map<string, int>, items: seq<PageTag>, n: nat)
    requires n <= |items| && AddTags(tags, id2page, items[..n]).Failure?
    ensures AddTags(tags, id2page, items) == AddTags(tags, id2page, items[..n])
    decreases |items| - n
  {
    if n < |items| {
      assert items[..n + 1][..n] == items[..n];
      AddTagsFailureStays(tags, id2page, items, n + 1);
    } else {
      assert items[..n] == items;
    }
  }

  /** A key holds blocks exactly when some page file's name maps to it. */
  lemma {:induction false} BlocksByPageDomain(id2page: map<string, int>, files: seq<(string, seq<Scene.Block>)>, key: Option<int>)
    ensures key in BlocksByPage(id2page, files) <==> exists k :: 0 <= k < |files| && H.PageOfFile(id2page, files[k].0) == key
    decreases |files|
  {
    if files != [] {
      var n := |files| - 1;
      var init := files[..n];
      BlocksByPageDomain(id2page, init, key);
      assert forall k :: 0 <= k < n ==> init[k] == files[k];
      if H.PageOfFile(id2page, files[n].0) == key {
        assert key in BlocksByPage(id2page, files);
      }
    }
  }

  /** Page file `k` is the last one whose name maps to `key`. */
  predicate LastFileOf(id2page: map<string, int>, files: seq<(string, seq<Scene.Block>)>, key: Option<int>, k: int) {
    0 <= k < |files| && H.PageOfFile(id2page, files[k].0) == key &&
    forall j :: k < j < |files| ==> H.PageOfFile(id2page, files[j].0) != key
  }

  /** A key that holds blocks holds those of the last page file whose name
      maps to it. */
  lemma {:induction false} BlocksByPageLookup(id2page: map<string, int>, files: seq<(string, seq<Scene.Block>)>, key: Option<int>)
    requires key in BlocksByPage(id2page, files)
    ensures exists k :: LastFileOf(id2page, files, key, k) && BlocksByPage(id2page, files)[key] == files[k].1
    decreases |files|
  {
    var n := |files| - 1;
    var init := files[..n];
    if H.PageOfFile(id2page, files[n].0) == key {
      assert LastFileOf(id2page, files, key, n);
    } else {
      BlocksByPageLookup(id2page, init, key);
      var k :| LastFileOf(id2page, init, key, k) && BlocksByPage(id2page, init)[key] == init[k].1;
      assert forall j :: 0 <= j < n ==> init[j] == files[j];
      assert LastFileOf(id2page, files, key, k);
    }
  }

  /** `read_page_map` fails exactly when the page-id map does (no
      `redirectionPageMap` beside `pages`) or a page tag names an unmapped
      page id; otherwise the files of the directory do not affect the
      page-id map, the scrolls or the tags. */
  lemma ReadPagesFails(m0: map<string, int>, md: Metadata, files: Option<seq<(string, seq<Scene.Block>)>>)
    ensures ReadPages(m0, md, files).Failure? <==>
      (md.pages.Some? && md.redirectionPageMap.None?) ||
      (PageMap(m0, md).Success? && md.pageTags.Some? &&
       exists k :: 0 <= k < |md.pageTags.value| && md.pageTags.value[k].pageId !in PageMap(m0, md).value)
    ensures ReadPages(m0, md, files).Success? ==> ReadPages(m0, md, files).value.id2page == PageMap(m0, md).value
  {
    if PageMap(m0, md).Success? && md.pageTags.Some? {
      AddTagsLookup(map[], PageMap(m0, md).value, md.pageTags.value, 0, "");
    }
  }

  // ---------------------------------------------------------------------
  // Files

  class File {
    const id: string
    const metadata: Metadata
    var id2page: map<string, int>
    var pageScroll: map<int, int>
    var pageTags: map<int, set<string>>
    var rmBlocks: map<Option<int>, seq<Scene.Block>>
    var children: seq<File>

    /** The dataclass fields, before `__post_init__` runs. */
    constructor(id: string, metadata: Metadata)
      ensures this.id == id && this.metadata == metadata
      ensures id2page == map[] && pageScroll == map[] && pageTags == map[] && rmBlocks == map[] && children == []
    {
      this.id := id;
      this.metadata := metadata;
      id2page := map[];
      pageScroll := map[];
      pageTags := map[];
      rmBlocks := map[];
      children := [];
    }

    /** The state `read_page_map` writes. */
    function State(): Pages
      reads this
    {
      Pages(id2page, pageScroll, pageTags, rmBlocks)
    }

    /** `read_page_map()`, given the decoded blocks of the `.rm` files of the
        document's directory (`None` when there is no such directory). On
        failure the file is abandoned with the exception, so what the loops
        left behind is not stated. */
    method ReadPageMap(files: Option<seq<(string, seq<Scene.Block>)>>) returns (err: Option<Error>)
      modifies this
      ensures err.None? <==> ReadPages(old(id2page), metadata, files).Success?
      ensures err.Some? ==> err.value == ReadPages(old(id2page), metadata, files).error
      ensures err.None? ==> State() == ReadPages(old(id2page), metadata, files).value
      ensures children == old(children)
    {
      err := ReadIndex();
      if err.Some? {
        return;
      }
      err := ReadTags();
      if err.Some? {
        return;
      }
      ReadBlocks(files);
    }

    /** The two page-id loops of `read_page_map`, with the scroll offsets
        the first one records. */
    method ReadIndex() returns (err: Option<Error>)
      modifies this
      ensures err.None? <==> PageMap(old(id2page), metadata).Success?
      ensures err.Some? ==> err.value == PageMap(old(id2page), metadata).error
      ensures err.None? ==> id2page == PageMap(old(id2page), metadata).value
      ensures pageScroll == if metadata.cPages.Some? then Scrolls(metadata.cPages.value) else map[]
      ensures pageTags == old(pageTags) && rmBlocks == old(rmBlocks) && children == old(children)
    {
      ReadPageIndices();
      if metadata.pages.Some? {
        if metadata.redirectionPageMap.None? {
          return Some(KeyError("redirectionPageMap"));
        }
        ReadRedirections(metadata.pages.value, metadata.redirectionPageMap.value);
      }
      return None;
    }

    /** The `cPages` loop of `read_page_map`: page ids to their index, and
        the scroll offsets. */
    method ReadPageIndices()
      modifies this
      ensures id2page == if metadata.cPages.Some? then IndexPages(old(id2page), metadata.cPages.value) else old(id2page)
      ensures pageScroll == if metadata.cPages.Some? then Scrolls(metadata.cPages.value) else map[]
      ensures pageTags == old(pageTags) && rmBlocks == old(rmBlocks) && children == old(children)
    {
      pageScroll := map[];
      if metadata.cPages.Some? {
        var ps := metadata.cPages.value;
        for i := 0 to |ps|
          invariant id2page == IndexPages(old(id2page), ps[..i])
          invariant pageScroll == Scrolls(ps[..i])
          invariant pageTags == old(pageTags) && rmBlocks == old(rmBlocks) && children == old(children)
        {
          assert ps[..i + 1][..i] == ps[..i];
          id2page := id2page[ps[i].id := i];
          if ps[i].verticalScroll.Some? {
            pageScroll := pageScroll[i := ps[i].verticalScroll.value];
          }
        }
        assert ps[..|ps|] == ps;
      }
    }

    /** The `redirectionPageMap` loop of `read_page_map`. */
    method ReadRedirections(pages: seq<string>, redir: seq<int>)
      modifies this
      ensures id2page == Assign(old(id2page), Zip(pages, redir))
      ensures pageScroll == old(pageScroll) && pageTags == old(pageTags) && rmBlocks == old(rmBlocks) && children == old(children)
    {
      ghost var pairs := Zip(pages, redir);
      var k := 0;
      while k < |pages| && k < |redir|
        invariant 0 <= k <= |pairs|
        invariant id2page == Assign(old(id2page), pairs[..k])
        invariant pageScroll == old(pageScroll) && pageTags == old(pageTags) && rmBlocks == old(rmBlocks) && children == old(children)
      {
        assert pairs[..k + 1][..k] == pairs[..k];
        id2page := id2page[pages[k] := redir[k]];
        k := k + 1;
      }
      assert pairs[..k] == pairs;
    }

    /** The tag loop of `read_page_map`. */
    method ReadTags() returns (err: Option<Error>)
      modifies this
      ensures var t := if metadata.pageTags.Some? then AddTags(map[], id2page, metadata.pageTags.value) else Success(map[]);
        (err.None? <==> t.Success?) && (err.Some? ==> err.value == t.error) && (err.None? ==> pageTags == t.value)
      ensures id2page == old(id2page) && pageScroll == old(pageScroll) && rmBlocks == old(rmBlocks) && children == old(children)
    {
      pageTags := map[];
      if metadata.pageTags.Some? {
        var items := metadata.pageTags.value;
        for i := 0 to |items|
          invariant AddTags(map[], id2page, items[..i]) == Success(pageTags)
          invariant id2page == old(id2page) && pageScroll == old(pageScroll) && rmBlocks == old(rmBlocks) && children == old(children)
        {
          assert items[..i + 1][..i] == items[..i];
          if items[i].pageId !in id2page {
            AddTagsFailureStays(map[], id2page, items, i + 1);
            return Some(KeyError(items[i].pageId));
          }
          var p := id2page[items[i].pageId];
          pageTags := pageTags[p := TagsAt(pageTags, p) + {items[i].name}];
        }
        assert items[..|items|] == items;
      }
      return None;
    }

    /** The page-file loop of `read_page_map`. */
    method ReadBlocks(files: Option<seq<(string, seq<Scene.Block>)>>)
      modifies this
      ensures rmBlocks == if files.Some? then BlocksByPage(id2page, files.value) else map[]
      ensures id2page == old(id2page) && pageScroll == old(pageScroll) && pageTags == old(pageTags) && children == old(children)
    {
      rmBlocks := map[];
      if files.None? {
        return;
      }
      var fs := files.value;
      for i := 0 to |fs|
        invariant rmBlocks == BlocksByPage(id2page, fs[..i])
        invariant id2page == old(id2page) && pageScroll == old(pageScroll) && pageTags == old(pageTags) && children == old(children)
      {
        assert fs[..i + 1][..i] == fs[..i];
        var pageId := Strings.Split(fs[i].0, ".")[0];
        assert pageId == H.FileId(fs[i].0);
        var pageIndex := if pageId in id2page then Some(id2page[pageId]) else None;
        rmBlocks := rmBlocks[pageIndex := fs[i].1];
      }
      assert fs[..|fs|] == fs;
    }

    /** `get_page_blocks(page_idx)`: the blocks stored for the page, or none. */
    function GetPageBlocks(pageIdx: int): (r: seq<Scene.Block>)
      reads this
      ensures Some(pageIdx) !in rmBlocks ==> r == []
    {
      if Some(pageIdx) in rmBlocks then rmBlocks[Some(pageIdx)] else []
    }

    /** `page_scroll[i]` on the default dictionary. */
    function PageScroll(i: int): (r: int)
      reads this
      ensures i !in pageScroll ==> r == 0
    {
      if i in pageScroll then pageScroll[i] else 0
    }

    /** `len(file)`: the number of page ids it maps. */
    function Len(): nat
      reads this
    {
      |id2page|
    }

    /** `self.deleted` */
    function Deleted(): Result<bool, Error> {
      Meta.Deleted(metadata)
    }

    /** `is_highlight_block(block)`: the item has a value with non-empty
        text. A stroke's value has no `text`. */
    static function IsHighlightBlock(block: Scene.Block): (r: bool)
      requires block.LineBlock? || block.GlyphBlock?
      ensures r <==> block.GlyphBlock? && block.glyph.Some? && block.glyph.value.text != []
    {
      match block
      case LineBlock(_, _, _) => false
      case GlyphBlock(_, glyph, _) => glyph.Some? && glyph.value.text != []
    }

    /** `is_handwriting_block(block)`: the item has a value with points. A
        glyph's value has no `points`, which reads as none here. */
    static function IsHandwritingBlock(block: Scene.Block): (r: bool)
      requires block.LineBlock? || block.GlyphBlock?
      ensures r <==> block.LineBlock? && block.line.Some? && block.line.value.points != []
    {
      match block
      case LineBlock(_, line, _) => line.Some? && line.value.points != []
      case GlyphBlock(_, _, _) => false
    }
  }

  /** Page `i` of a freshly read file scrolls by the `verticalScroll` of
      entry `i` of `cPages`, or by 0. */
  lemma ReadScroll(md: Metadata, files: Option<seq<(string, seq<Scene.Block>)>>, i: int)
    requires ReadPages(map[], md, files).Success?
    ensures var s := ReadPages(map[], md, files).value.scroll;
      var cps := if md.cPages.Some? then md.cPages.value else [];
      (if i in s then s[i] else 0) == (if 0 <= i < |cps| && cps[i].verticalScroll.Some? then cps[i].verticalScroll.value else 0)
  {
    if md.cPages.Some? {
      ScrollsLookup(md.cPages.value, i);
    }
  }

  /** `get_page_blocks(i)` of a freshly read file gives the blocks of the
      last page file whose id maps to page `i`, and nothing when there is
      none. */
  lemma ReadPageBlocks(md: Metadata, files: seq<(string, seq<Scene.Block>)>, i: int)
    requires ReadPages(map[], md, Some(files)).Success?
    ensures var r := ReadPages(map[], md, Some(files)).value;
      var b := if Some(i) in r.blocks then r.blocks[Some(i)] else [];
      ((forall k :: 0 <= k < |files| ==> H.PageOfFile(r.id2page, files[k].0) != Some(i)) ==> b == []) &&
      ((exists k :: 0 <= k < |files| && H.PageOfFile(r.id2page, files[k].0) == Some(i)) ==>
        exists k :: 0 <= k < |files| && H.PageOfFile(r.id2page, files[k].0) == Some(i) && b == files[k].1 &&
          forall j :: k < j < |files| ==> H.PageOfFile(r.id2page, files[j].0) != Some(i))
  {
    var id2page := ReadPages(map[], md, Some(files)).value.id2page;
    BlocksByPageDomain(id2page, files, Some(i));
    if Some(i) in BlocksByPage(id2page, files) {
      BlocksByPageLookup(id2page, files, Some(i));
    }
  }

  /** `len(file)` of a freshly read file counts the distinct page ids its
      metadata names. */
  lemma ReadLen(md: Metadata, files: Option<seq<(string, seq<Scene.Block>)>>)
    requires ReadPages(map[], md, files).Success?
    ensures |ReadPages(map[], md, files).value.id2page| == |PageIds(md)|
  {
    PageMapKeys(md);
    assert ReadPages(map[], md, files).value.id2page.Keys == PageIds(md);
  }

  /** The file records the file system keeps: created, then kept unless
      deleted; see `Fs.FileSystem` for the same structure over nodes. */
  class FileSystem {
    var root: File
    var files: map<string, File>
    /** The keys of `files` in insertion order. */
    var order: seq<string>

    ghost predicate Valid()
      reads this
    {
      Table(files, order, root)
    }

    ghost function Parents(): (p: map<string, string>)
      requires Valid()
      reads this
      ensures p.Keys == files.Keys
    {
      map id | id in files :: files[id].metadata.parent.value
    }

    /** The root file and an empty table; `rootFiles` are the page files of
        a directory named `root`, if any. */
    constructor(rootFiles: Option<seq<(string, seq<Scene.Block>)>>)
      ensures Valid() && files == map[] && order == []
      ensures root.id == "root" && root.metadata == RootMetadata && root.children == []
      ensures root.State() == ReadPages(map[], RootMetadata, rootFiles).value
      ensures fresh(root)
    {
      var r := new File("root", RootMetadata);
      var err := r.ReadPageMap(rootFiles);
      root := r;
      files := map[];
      order := [];
    }

    /** `add_node(node_id, metadata)`: make the file, which reads its page
        map and then its name (for its short hash), and keep it under its
        id unless it is deleted. */
    method AddNode(nodeId: string, md: Metadata, pageFiles: Option<seq<(string, seq<Scene.Block>)>>) returns (r: Result<Option<File>, Error>)
      requires Valid()
      modifies this
      ensures Valid() && root == old(root)
      ensures r.Failure? <==> ReadPages(map[], md, pageFiles).Failure? || md.visibleName.None? || Meta.Deleted(md).Failure?
      ensures r.Failure? ==>
        r.error == (if ReadPages(map[], md, pageFiles).Failure? then ReadPages(map[], md, pageFiles).error
                    else if md.visibleName.None? then KeyError("visibleName")
                    else Meta.Deleted(md).error)
      ensures r == Success(None) <==>
        ReadPages(map[], md, pageFiles).Success? && md.visibleName.Some? && Meta.Deleted(md) == Success(true)
      ensures r.Success? && r.value.Some? ==>
        var f := r.value.value;
        fresh(f) && f.id == nodeId && f.metadata == md && f.children == [] &&
        f.State() == ReadPages(map[], md, pageFiles).value &&
        files == old(files)[nodeId := f] &&
        order == if nodeId in old(files) then old(order) else old(order) + [nodeId]
      ensures !(r.Success? && r.value.Some?) ==> files == old(files) && order == old(order)
    {
      var f := new File(nodeId, md);
      var err := f.ReadPageMap(pageFiles);
      if err.Some? {
        return Failure(err.value);
      }
      var name := Name(md);
      if name.Failure? {
        return Failure(name.error);
      }
      var deleted := f.Deleted();
      if deleted.Failure? {
        return Failure(deleted.error);
      }
      if deleted.value {
        return Success(None);
      }
      TableAdd(files, order, root, f);
      if nodeId !in files {
        order := order + [nodeId];
      }
      files := files[nodeId := f];
      return Success(Some(f));
    }

    /** The children lists after the first `i` visits, from the lists
        `kids0` and `rootKids0` they started with. */
    ghost predicate Built(i: nat, parents: map<string, string>, kids0: map<string, seq<File>>, rootKids0: seq<File>)
      requires i <= |order|
      reads this, files.Values, root
    {
      (forall id :: id in files && id in kids0 ==>
        files[id].children == kids0[id] + FilesOf(files, H.ChildIds(order[..i], parents, Some(id)))) &&
      root.children == rootKids0 + FilesOf(files, H.ChildIds(order[..i], parents, None))
    }

    /** `build_hierarchy()`: visit the files in insertion order and append
        each to the children of its parent when the parent is kept, and to
        the root's otherwise. Nothing else changes. */
    method BuildHierarchy()
      requires Valid()
      modifies files.Values, root
      ensures forall id :: id in files ==>
        files[id].children == old(files[id].children) + FilesOf(files, H.ChildIds(order, Parents(), Some(id)))
      ensures root.children == old(root.children) + FilesOf(files, H.ChildIds(order, Parents(), None))
      ensures forall id :: id in files ==> files[id].State() == old(files[id].State())
      ensures root.State() == old(root.State())
    {
      ghost var parents := Parents();
      ghost var kids0 := map id | id in files :: files[id].children;
      ghost var rootKids0 := root.children;
      for i := 0 to |order|
        invariant Built(i, parents, kids0, rootKids0)
        invariant forall id :: id in files ==> files[id].State() == old(files[id].State())
        invariant root.State() == old(root.State())
      {
        Visit(i, parents, kids0, rootKids0);
      }
      BuiltAll(parents, kids0, rootKids0);
    }

    /** Once every file is visited, each children list holds the files of
        its home in insertion order. */
    lemma BuiltAll(parents: map<string, string>, kids0: map<string, seq<File>>, rootKids0: seq<File>)
      requires Built(|order|, parents, kids0, rootKids0)
      ensures forall id :: id in files && id in kids0 ==>
        files[id].children == kids0[id] + FilesOf(files, H.ChildIds(order, parents, Some(id)))
      ensures root.children == rootKids0 + FilesOf(files, H.ChildIds(order, parents, None))
    {
      assert order[..|order|] == order;
    }

    /** Step `i` of `build_hierarchy`. */
    method Visit(i: nat, ghost parents: map<string, string>, ghost kids0: map<string, seq<File>>, ghost rootKids0: seq<File>)
      requires Valid() && i < |order| && parents == Parents()
      requires Built(i, parents, kids0, rootKids0)
      modifies files.Values, root
      ensures Built(i + 1, parents, kids0, rootKids0)
      ensures forall id :: id in files ==> files[id].State() == old(files[id].State())
      ensures root.State() == old(root.State())
    {
      var f := files[order[i]];
      var parentId := f.metadata.parent.value;
      assert order[i] in parents && parents[order[i]] == parentId;
      assert parentId in parents.Keys <==> parentId in files;
      Link(f, parentId);
      forall id | id in files && id in kids0
        ensures files[id].children == kids0[id] + FilesOf(files, H.ChildIds(order[..i + 1], parents, Some(id)))
      {
        ChildFilesSnoc(files, order, i, parents, Some(id));
        if id == parentId {
          Seqs.AppendAssoc(kids0[id], FilesOf(files, H.ChildIds(order[..i], parents, Some(id))), [f]);
        }
      }
      ChildFilesSnoc(files, order, i, parents, None);
      if parentId !in files {
        Seqs.AppendAssoc(rootKids0, FilesOf(files, H.ChildIds(order[..i], parents, None)), [f]);
      }
    }

    /** One pass of `build_hierarchy`. */
    method Link(f: File, parentId: string)
      requires Valid()
      modifies files.Values, root
      ensures parentId in files ==> files[parentId].children == old(files[parentId].children) + [f]
      ensures parentId !in files ==> root.children == old(root.children) + [f]
      ensures forall id :: id in files && id != parentId ==> files[id].children == old(files[id].children)
      ensures parentId in files ==> root.children == old(root.children)
      ensures forall id :: id in files ==> files[id].State() == old(files[id].State())
      ensures root.State() == old(root.State())
    {
      if parentId in files {
        var p := files[parentId];
        p.children := p.children + [f];
      } else {
        root.children := root.children + [f];
      }
    }

    /** `parse_hierarchy(file_ids)` on a table still empty: `add_node` for
        each id, visiting them in the order `ids` (the source iterates a
        set), then `build_hierarchy()`. `meta(id)` is the metadata merged
        with the content read for `id`, `pages(id)` the decoded page files
        of its directory. The first `add_node` that raises ends the
        construction with its exception. */
    method ParseHierarchy(ids: seq<string>, meta: string -> Metadata, pages: string -> PageFiles) returns (err: Option<Error>)
      requires Valid() && files == map[] && order == [] && root.children == [] && H.Distinct(ids)
      modifies this, root
      ensures err.Some? <==> KeptIds(ids, meta, pages).Failure?
      ensures err.Some? ==> err.value == KeptIds(ids, meta, pages).error
      ensures err.None? ==> Valid() && root == old(root) && order == KeptIds(ids, meta, pages).value
      ensures err.None? ==> forall id :: id in files ==>
        files[id].metadata == meta(id) && AddOutcome(meta(id), pages(id)) == Success(true) &&
        ReadPages(map[], meta(id), pages(id)).Success? && files[id].State() == ReadPages(map[], meta(id), pages(id)).value
      ensures err.None? ==> forall id :: id in files ==> files[id].children == FilesOf(files, H.ChildIds(order, Parents(), Some(id)))
      ensures err.None? ==> root.children == FilesOf(files, H.ChildIds(order, Parents(), None))
    {
      for i := 0 to |ids|
        invariant Valid() && root == old(root) && root.children == []
        invariant KeptIds(ids[..i], meta, pages) == Success(order)
        invariant forall id :: id in files ==> id in ids[..i]
        invariant forall id :: id in files ==>
          fresh(files[id]) && files[id].children == [] && files[id].metadata == meta(id) &&
          AddOutcome(meta(id), pages(id)) == Success(true) &&
          ReadPages(map[], meta(id), pages(id)).Success? && files[id].State() == ReadPages(map[], meta(id), pages(id)).value
      {
        var id := ids[i];
        assert ids[..i + 1][..i] == ids[..i] && ids[..i + 1][i] == id;
        var r := AddNode(id, meta(id), pages(id));
        if r.Failure? {
          KeptIdsFailureStays(ids, meta, pages, i + 1);
          return Some(r.error);
        }
      }
      assert ids[..|ids|] == ids;
      BuildHierarchy();
      forall id | id in files
        ensures files[id].children == FilesOf(files, H.ChildIds(order, Parents(), Some(id)))
      {
        assert [] + FilesOf(files, H.ChildIds(order, Parents(), Some(id))) == FilesOf(files, H.ChildIds(order, Parents(), Some(id)));
      }
      assert [] + FilesOf(files, H.ChildIds(order, Parents(), None)) == FilesOf(files, H.ChildIds(order, Parents(), None));
      return None;
    }
  }

  /** The decoded page files of a document's directory; `None` when there
      is no such directory. */
  type PageFiles = Option<seq<(string, seq<Scene.Block>)>>

  /** What `add_node` does with a document: raise, drop it as deleted
      (`false`) or keep it (`true`). */
  function AddOutcome(md: Metadata, pageFiles: PageFiles): (r: Result<bool, Error>)
    ensures r.Failure? <==> ReadPages(map[], md, pageFiles).Failure? || md.visibleName.None? || Meta.Deleted(md).Failure?
    ensures r == Success(true) <==>
      ReadPages(map[], md, pageFiles).Success? && md.visibleName.Some? && Meta.Deleted(md) == Success(false)
  {
    var _ :- ReadPages(map[], md, pageFiles);
    var _ :- Name(md);
    var deleted :- Meta.Deleted(md);
    Success(!deleted)
  }

  /** The ids `parse_hierarchy` keeps, in the order it visits them, or the
      first exception of `add_node`. */
  function KeptIds(ids: seq<string>, meta: string -> Metadata, pages: string -> PageFiles): Result<seq<string>, Error> {
    if ids == [] then Success([])
    else
      var kept :- KeptIds(ids[..|ids| - 1], meta, pages);
      var id := ids[|ids| - 1];
      var keep :- AddOutcome(meta(id), pages(id));
      Success(if keep then kept + [id] else kept)
  }

  /** Once `add_node` raises, the later ids keep that exception. */
  lemma {:induction false} KeptIdsFailureStays(ids: seq<string>, meta: string -> Metadata, pages: string -> PageFiles, i: nat)
    requires i <= |ids| && KeptIds(ids[..i], meta, pages).Failure?
    ensures KeptIds(ids, meta, pages) == KeptIds(ids[..i], meta, pages)
    decreases |ids| - i
  {
    if i < |ids| {
      assert ids[..i + 1][..i] == ids[..i];
      KeptIdsFailureStays(ids, meta, pages, i + 1);
    } else {
      assert ids[..i] == ids;
    }
  }

  /** `parse_hierarchy` fails exactly when `add_node` raises for some id,
      with the exception of the first such id; otherwise it keeps exactly
      the ids whose document reads, is named and is not deleted, in the
      order it visits them. */
  lemma {:induction false} KeptIdsExactly(ids: seq<string>, meta: string -> Metadata, pages: string -> PageFiles)
    ensures KeptIds(ids, meta, pages).Failure? <==> exists k :: 0 <= k < |ids| && AddOutcome(meta(ids[k]), pages(ids[k])).Failure?
    ensures KeptIds(ids, meta, pages).Failure? ==>
      exists k :: 0 <= k < |ids| && AddOutcome(meta(ids[k]), pages(ids[k])).Failure? &&
        KeptIds(ids, meta, pages).error == AddOutcome(meta(ids[k]), pages(ids[k])).error &&
        forall j :: 0 <= j < k ==> AddOutcome(meta(ids[j]), pages(ids[j])).Success?
    ensures KeptIds(ids, meta, pages).Success? ==>
      var kept := KeptIds(ids, meta, pages).value;
      (forall id :: id in kept <==> id in ids && AddOutcome(meta(id), pages(id)) == Success(true)) &&
      |kept| <= |ids|
    decreases |ids|
  {
    if ids != [] {
      var init, id := ids[..|ids| - 1], ids[|ids| - 1];
      KeptIdsExactly(init, meta, pages);
      assert forall k :: 0 <= k < |init| ==> init[k] == ids[k];
      assert forall x :: x in ids <==> x in init || x == id;
    }
  }

  /** `FileSystem(source_dir, cache_dir)`: the root, `read_file_ids()` over
      the directory listing `names`, then `parse_hierarchy` over those ids
      in the order `ids`. */
  method NewFileSystem(rootFiles: PageFiles, names: seq<string>, ids: seq<string>,
                       meta: string -> Metadata, pages: string -> PageFiles) returns (r: Result<FileSystem, Error>)
    requires H.Distinct(ids) && forall id :: id in ids <==> id in H.FileIds(names)
    ensures r.Failure? <==> KeptIds(ids, meta, pages).Failure?
    ensures r.Failure? ==> r.error == KeptIds(ids, meta, pages).error
    ensures r.Success? ==> fresh(r.value) && r.value.Valid() && r.value.order == KeptIds(ids, meta, pages).value
    ensures r.Success? ==> var fs := r.value;
      fs.root.id == "root" && fs.root.metadata == RootMetadata &&
      (forall id :: id in fs.files ==>
         fs.files[id].metadata == meta(id) &&
         fs.files[id].children == FilesOf(fs.files, H.ChildIds(fs.order, fs.Parents(), Some(id)))) &&
      fs.root.children == FilesOf(fs.files, H.ChildIds(fs.order, fs.Parents(), None))
  {
    var fs := new FileSystem(rootFiles);
    var fileIds := H.ReadFileIds(names);
    assert forall id :: id in ids <==> id in fileIds;
    var err := fs.ParseHierarchy(ids, meta, pages);
    if err.Some? {
      return Failure(err.value);
    }
    return Success(fs);
  }

  /** The file table of a `FileSystem`: `order` lists each key once, every
      file sits under its own id, has a parent and is not the root. */
  ghost predicate Table(files: map<string, File>, order: seq<string>, root: File) {
    (forall i :: 0 <= i < |order| ==> order[i] in files) &&
    (forall id :: id in files ==> id in order) &&
    H.Distinct(order) &&
    (forall id :: id in files ==> files[id].id == id && files[id].metadata.parent.Some? && files[id] != root)
  }

  /** Keeping one more file under its id keeps the table well formed. */
  lemma TableAdd(files: map<string, File>, order: seq<string>, root: File, f: File)
    requires Table(files, order, root) && f.metadata.parent.Some? && f != root
    ensures Table(files[f.id := f], if f.id in files then order else order + [f.id], root)
  {
  }

  /** The files of `fs` with the given ids, in order. */
  function FilesOf(fs: map<string, File>, ids: seq<string>): seq<File> {
    if ids == [] then []
    else FilesOf(fs, ids[..|ids| - 1]) + (if ids[|ids| - 1] in fs then [fs[ids[|ids| - 1]]] else [])
  }

  /** One visit of `build_hierarchy`, on the files of one children list. */
  lemma ChildFilesSnoc(fs: map<string, File>, order: seq<string>, i: int, parents: map<string, string>, t: Option<string>)
    requires 0 <= i < |order| && order[i] in fs
    ensures order[i] in parents && H.Home(parents.Keys, parents[order[i]]) == t ==>
      FilesOf(fs, H.ChildIds(order[..i + 1], parents, t)) == FilesOf(fs, H.ChildIds(order[..i], parents, t)) + [fs[order[i]]]
    ensures !(order[i] in parents && H.Home(parents.Keys, parents[order[i]]) == t) ==>
      FilesOf(fs, H.ChildIds(order[..i + 1], parents, t)) == FilesOf(fs, H.ChildIds(order[..i], parents, t))
  {
    H.ChildIdsSnoc(order, i, parents, t);
    var c := H.ChildIds(order[..i], parents, t);
    if order[i] in parents && H.Home(parents.Keys, parents[order[i]]) == t {
      assert (c + [order[i]])[..|c|] == c;
    } else {
      assert c + [] == c;
    }
  }

  // ---------------------------------------------------------------------
  // Highlight records

  /** The records the exporters consume. `DrawingHighlight` is another name
      for `ImageHighlight`. Every record has a page index, a position in the
      page and the page's tags. */
  datatype Highlight =
    | TextHighlight(pageIndex: Option<int>, blockIndex: real, tags: set<string>, text: string, color: Rgba)
    | ImageHighlight(pageIndex: Option<int>, blockIndex: real, tags: set<string>, imagePath: string)
}
