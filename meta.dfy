/** The document metadata both node classes read: the fields of a
    `.metadata` file merged with its `.content` file, each present or absent
    as a dictionary key is. Loading the JSON is not part of this model. The
    page-id map that both classes build from it, and the `deleted` property
    they share, are defined here once. */
module Meta {
  import opened Common

  /** An entry of `cPages.pages`: its page id and, when present,
      `verticalScroll.value`. */
  datatype CPage = CPage(id: string, verticalScroll: Option<int>)

  /** An entry of `pageTags`. */
  datatype PageTag = PageTag(pageId: string, name: string)

  datatype Metadata = Metadata(
    cPages: Option<seq<CPage>>,        // `cPages.pages`, when both keys exist
    pages: Option<seq<string>>,
    redirectionPageMap: Option<seq<int>>,
    pageTags: Option<seq<PageTag>>,
    fileType: Option<string>,
    zoomPageWidth: Option<real>,       // `customZoomPageWidth`
    zoomPageHeight: Option<real>,      // `customZoomPageHeight`
    deleted: Option<bool>,
    parent: Option<string>,
    visibleName: Option<string>,
    lastModified: Option<int>,         // milliseconds since the epoch
    createdTime: Option<int>)          // milliseconds since the epoch

  /** The metadata of the synthetic root folder. */
  const RootMetadata := Metadata(None, None, None, None, None, None, None, None, None, Some("Root"), None, None)

  // ---------------------------------------------------------------------
  // The page-id map

  /** The first loop of `read_page_map`: entry `i` of `cPages.pages` maps
      its id to `i`, later entries overriding earlier ones. */
  function IndexPages(m: map<string, int>, ps: seq<CPage>): map<string, int> {
    if ps == [] then m else IndexPages(m, ps[..|ps| - 1])[ps[|ps| - 1].id := |ps| - 1]
  }

  /** `zip(pages, redirectionPageMap)`: pairs up to the shorter list. */
  function Zip(pages: seq<string>, redir: seq<int>): (pairs: seq<(string, int)>)
    ensures |pairs| == if |pages| <= |redir| then |pages| else |redir|
    ensures forall k :: 0 <= k < |pairs| ==> pairs[k] == (pages[k], redir[k])
  {
    if pages == [] || redir == [] then [] else [(pages[0], redir[0])] + Zip(pages[1..], redir[1..])
  }

  /** The second loop of `read_page_map`: each pair assigns its index to its
      page id, later pairs overriding earlier ones. */
  function Assign(m: map<string, int>, pairs: seq<(string, int)>): map<string, int> {
    if pairs == [] then m else Assign(m, pairs[..|pairs| - 1])[pairs[|pairs| - 1].0 := pairs[|pairs| - 1].1]
  }

  /** The page-id map after `read_page_map`, starting from `m`: the `cPages`
      indices, then the `pages`/`redirectionPageMap` pairs over them. With
      `pages` but no `redirectionPageMap`, the lookup raises. */
  function PageMap(m: map<string, int>, md: Metadata): Result<map<string, int>, Error> {
    var m1 := if md.cPages.Some? then IndexPages(m, md.cPages.value) else m;
    if md.pages.None? then Success(m1)
    else if md.redirectionPageMap.None? then Failure(KeyError("redirectionPageMap"))
    else Success(Assign(m1, Zip(md.pages.value, md.redirectionPageMap.value)))
  }

  /** Each id of `cPages` maps to the index of its last occurrence; other
      keys keep their value. */
  lemma {:induction false} IndexPagesLookup(m: map<string, int>, ps: seq<CPage>, id: string)
    ensures var r := IndexPages(m, ps);
      (id in r <==> id in m || exists i :: 0 <= i < |ps| && ps[i].id == id) &&
      ((exists i :: 0 <= i < |ps| && ps[i].id == id) ==>
         0 <= r[id] < |ps| && ps[r[id]].id == id && forall j :: r[id] < j < |ps| ==> ps[j].id != id) &&
      ((forall i :: 0 <= i < |ps| ==> ps[i].id != id) ==> (id in m ==> r[id] == m[id]))
    decreases |ps|
  {
    if ps != [] {
      var init := ps[..|ps| - 1];
      IndexPagesLookup(m, init, id);
      assert forall i :: 0 <= i < |init| ==> init[i] == ps[i];
      if ps[|ps| - 1].id != id && exists i :: 0 <= i < |ps| && ps[i].id == id {
        var i :| 0 <= i < |ps| && ps[i].id == id;
        assert init[i].id == id;
      }
    }
  }

  /** Each page id of the pairs maps to the index of its last pair; other
      keys keep their value. */
  lemma {:induction false} AssignLookup(m: map<string, int>, pairs: seq<(string, int)>, id: string)
    ensures var r := Assign(m, pairs);
      (id in r <==> id in m || exists k :: 0 <= k < |pairs| && pairs[k].0 == id) &&
      ((exists k :: 0 <= k < |pairs| && pairs[k].0 == id) ==>
         exists k :: 0 <= k < |pairs| && pairs[k] == (id, r[id]) && forall j :: k < j < |pairs| ==> pairs[j].0 != id) &&
      ((forall k :: 0 <= k < |pairs| ==> pairs[k].0 != id) ==> (id in m ==> r[id] == m[id]))
    decreases |pairs|
  {
    if pairs != [] {
      var init := pairs[..|pairs| - 1];
      AssignLookup(m, init, id);
      assert forall k :: 0 <= k < |init| ==> init[k] == pairs[k];
      if pairs[|pairs| - 1].0 != id && exists k :: 0 <= k < |pairs| && pairs[k].0 == id {
        var k :| 0 <= k < |pairs| && pairs[k].0 == id;
        assert init[k].0 == id;
        var k' :| 0 <= k' < |init| && init[k'] == (id, Assign(m, init)[id]) && forall j :: k' < j < |init| ==> init[j].0 != id;
        assert pairs[k'] == (id, Assign(m, pairs)[id]);
      }
    }
  }

  /** The page-id map of a document: a page id listed in
      `pages`/`redirectionPageMap` takes the redirection of its last pair;
      otherwise an id of `cPages` takes the position of its last entry;
      other ids keep their value. */
  lemma PageMapLookup(m: map<string, int>, md: Metadata, id: string)
    requires md.pages.Some? ==> md.redirectionPageMap.Some?
    ensures PageMap(m, md).Success?
    ensures var r := PageMap(m, md).value;
      var cps := if md.cPages.Some? then md.cPages.value else [];
      var pairs := if md.pages.Some? then Zip(md.pages.value, md.redirectionPageMap.value) else [];
      (id in r <==> id in m || (exists i :: 0 <= i < |cps| && cps[i].id == id) || (exists k :: 0 <= k < |pairs| && pairs[k].0 == id)) &&
      ((exists k :: 0 <= k < |pairs| && pairs[k].0 == id) ==>
         exists k :: 0 <= k < |pairs| && pairs[k] == (id, r[id]) && forall j :: k < j < |pairs| ==> pairs[j].0 != id) &&
      ((forall k :: 0 <= k < |pairs| ==> pairs[k].0 != id) && (exists i :: 0 <= i < |cps| && cps[i].id == id) ==>
         0 <= r[id] < |cps| && cps[r[id]].id == id && forall j :: r[id] < j < |cps| ==> cps[j].id != id)
  {
    var cps := if md.cPages.Some? then md.cPages.value else [];
    var m1 := if md.cPages.Some? then IndexPages(m, md.cPages.value) else m;
    assert md.cPages.None? ==> m1 == IndexPages(m, cps);
    IndexPagesLookup(m, cps, id);
    if md.pages.Some? {
      AssignLookup(m1, Zip(md.pages.value, md.redirectionPageMap.value), id);
    }
  }

  /** The page ids a document's metadata names: those of `cPages` and those
      of the `pages`/`redirectionPageMap` pairs. */
  ghost function PageIds(md: Metadata): set<string>
    requires md.pages.Some? ==> md.redirectionPageMap.Some?
  {
    var cps := if md.cPages.Some? then md.cPages.value else [];
    var pairs := if md.pages.Some? then Zip(md.pages.value, md.redirectionPageMap.value) else [];
    (set i | 0 <= i < |cps| :: cps[i].id) + (set k | 0 <= k < |pairs| :: pairs[k].0)
  }

  /** Read from an empty map, the page-id map has a key for each page id
      the metadata names and no other. */
  lemma PageMapKeys(md: Metadata)
    requires md.pages.Some? ==> md.redirectionPageMap.Some?
    ensures PageMap(map[], md).Success?
    ensures PageMap(map[], md).value.Keys == PageIds(md)
  {
    var cps := if md.cPages.Some? then md.cPages.value else [];
    var pairs := if md.pages.Some? then Zip(md.pages.value, md.redirectionPageMap.value) else [];
    forall id ensures id in PageMap(map[], md).value <==> id in PageIds(md) {
      PageMapLookup(map[], md, id);
      if exists i :: 0 <= i < |cps| && cps[i].id == id {
        var i :| 0 <= i < |cps| && cps[i].id == id;
        assert id in (set i | 0 <= i < |cps| :: cps[i].id);
      }
      if exists k :: 0 <= k < |pairs| && pairs[k].0 == id {
        var k :| 0 <= k < |pairs| && pairs[k].0 == id;
        assert id in (set k | 0 <= k < |pairs| :: pairs[k].0);
      }
    }
  }

  /** `read_page_map` fails exactly when `pages` is present without
      `redirectionPageMap`. */
  lemma PageMapFails(m: map<string, int>, md: Metadata)
    ensures PageMap(m, md).Failure? <==> md.pages.Some? && md.redirectionPageMap.None?
    ensures PageMap(m, md).Failure? ==> PageMap(m, md).error == KeyError("redirectionPageMap")
  {
  }

  // ---------------------------------------------------------------------
  // Shared properties

  /** `metadata.get("deleted", False) or self.parent == "trash"`: a true
      flag decides; otherwise the parent is read, which raises when absent. */
  function Deleted(md: Metadata): (r: Result<bool, Error>)
    ensures r.Failure? <==> !(md.deleted == Some(true)) && md.parent.None?
    ensures r.Failure? ==> r.error == KeyError("parent")
    ensures r == Success(true) <==> md.deleted == Some(true) || md.parent == Some("trash")
    ensures r == Success(false) ==> md.parent.Some? && md.parent.value != "trash"
  {
    if md.deleted == Some(true) then Success(true)
    else if md.parent.None? then Failure(KeyError("parent"))
    else Success(md.parent.value == "trash")
  }

  /** `self.parent` */
  function Parent(md: Metadata): (r: Result<string, Error>)
    ensures r.Success? <==> md.parent.Some?
  {
    if md.parent.Some? then Success(md.parent.value) else Failure(KeyError("parent"))
  }

  /** `self.name` */
  function Name(md: Metadata): (r: Result<string, Error>)
    ensures r.Success? <==> md.visibleName.Some?
  {
    if md.visibleName.Some? then Success(md.visibleName.value) else Failure(KeyError("visibleName"))
  }

  /** The first instant, in milliseconds since the epoch, of year 1 and of
      year 10000, taken in UTC: `datetime.fromtimestamp` raises for an
      instant outside this range, whose year it cannot represent. */
  const Year1 := -62135596800000
  const Year10000 := 253402300800000

  predicate Representable(t: int) {
    Year1 <= t < Year10000
  }

  /** `self.last_modified_time`, as the instant it formats. */
  function LastModified(md: Metadata): (r: Result<int, Error>)
    ensures r.Success? <==> md.lastModified.Some? && Representable(md.lastModified.value)
    ensures md.lastModified.None? ==> r == Failure(KeyError("lastModified"))
    ensures r.Success? ==> r.value == md.lastModified.value
  {
    if md.lastModified.None? then Failure(KeyError("lastModified"))
    else if !Representable(md.lastModified.value) then Failure(ValueError)
    else Success(md.lastModified.value)
  }

  /** The first and the last instant, in milliseconds since the epoch, whose
      year starts with "20": 2000-01-01 and 2100-01-01, taken in UTC. The
      source reads the year in the local time zone, which moves both
      boundaries by that zone's offset. */
  const Year2000 := 946684800000
  const Year2100 := 4102444800000

  /** `self.created_time`: the recorded creation instant, or the clock's
      `now` when that instant's year does not start with "20"; an instant
      whose year cannot be represented raises before the test. */
  function CreatedTime(md: Metadata, now: int): (r: Result<int, Error>)
    ensures r.Failure? <==> md.createdTime.None? || !Representable(md.createdTime.value)
    ensures md.createdTime.None? ==> r == Failure(KeyError("createdTime"))
    ensures r.Success? ==> r.value == md.createdTime.value || r.value == now
    ensures r.Success? && Year2000 <= md.createdTime.value < Year2100 ==> r.value == md.createdTime.value
    ensures r.Success? && !(Year2000 <= md.createdTime.value < Year2100) ==> r.value == now
  {
    if md.createdTime.None? then Failure(KeyError("createdTime"))
    else if !Representable(md.createdTime.value) then Failure(ValueError)
    else if Year2000 <= md.createdTime.value < Year2100 then Success(md.createdTime.value)
    else Success(now)
  }

  /** `self.file_type` */
  function FileType(md: Metadata): (r: Result<string, Error>)
    ensures r.Success? <==> md.fileType.Some?
  {
    if md.fileType.Some? then Success(md.fileType.value) else Failure(KeyError("fileType"))
  }
}
