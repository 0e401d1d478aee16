/** What both file-system classes do with node ids, stated on ids alone:
    which children list `build_hierarchy` appends each node to, and which ids
    `read_file_ids` takes from the names in the source directory. */
module Hierarchy {
  import opened Common
  import opened Strings

  ghost predicate Distinct(s: seq<string>) {
    forall i, j :: 0 <= i < j < |s| ==> s[i] != s[j]
  }

  /** The list a node with parent id `parent` joins: that node's, when it is
      one of `keys`, and the root's (`None`) otherwise. */
  function Home(keys: set<string>, parent: string): (h: Option<string>)
    ensures h.Some? <==> parent in keys
    ensures h.Some? ==> h.value == parent
  {
    if parent in keys then Some(parent) else None
  }

  /** The ids appended to the children of `target` (the root for `None`)
      when the nodes are visited in `order`; an id without an entry in
      `parents` is not a kept node and is passed over. */
  function ChildIds(order: seq<string>, parents: map<string, string>, target: Option<string>): (c: seq<string>)
    ensures forall k :: 0 <= k < |c| ==> c[k] in parents && Home(parents.Keys, parents[c[k]]) == target
  {
    if order == [] then []
    else
      var id := order[|order| - 1];
      ChildIds(order[..|order| - 1], parents, target) + (if id in parents && Home(parents.Keys, parents[id]) == target then [id] else [])
  }

  lemma ChildIdsSnoc(order: seq<string>, i: int, parents: map<string, string>, target: Option<string>)
    requires 0 <= i < |order|
    ensures ChildIds(order[..i + 1], parents, target) ==
      ChildIds(order[..i], parents, target) + (if order[i] in parents && Home(parents.Keys, parents[order[i]]) == target then [order[i]] else [])
  {
    assert order[..i + 1][..i] == order[..i];
  }

  /** Every visited node joins exactly one children list, that of its home,
      and joins it once. */
  lemma {:induction false} ChildIdsExactlyOnce(order: seq<string>, parents: map<string, string>, target: Option<string>)
    requires forall i :: 0 <= i < |order| ==> order[i] in parents
    requires Distinct(order)
    ensures Distinct(ChildIds(order, parents, target))
    ensures forall id :: id in ChildIds(order, parents, target) <==> id in order && Home(parents.Keys, parents[id]) == target
    decreases |order|
  {
    if order != [] {
      var init, id := order[..|order| - 1], order[|order| - 1];
      assert forall i :: 0 <= i < |init| ==> init[i] == order[i];
      ChildIdsExactlyOnce(init, parents, target);
      var c0 := ChildIds(init, parents, target);
      assert id !in init;
      assert order == init + [id];
    }
  }

  /** The children lists keep the visiting order: of two ids in one list,
      the earlier was visited first. */
  lemma {:induction false} ChildIdsOrder(order: seq<string>, parents: map<string, string>, target: Option<string>, a: int, b: int)
    requires forall i :: 0 <= i < |order| ==> order[i] in parents
    requires 0 <= a < b < |ChildIds(order, parents, target)|
    ensures exists i, j :: 0 <= i < j < |order| && order[i] == ChildIds(order, parents, target)[a] && order[j] == ChildIds(order, parents, target)[b]
    decreases |order|
  {
    var init, id := order[..|order| - 1], order[|order| - 1];
    assert forall i :: 0 <= i < |init| ==> init[i] == order[i];
    var c0 := ChildIds(init, parents, target);
    var c := ChildIds(order, parents, target);
    assert c[..|c0|] == c0;
    if b < |c0| {
      ChildIdsOrder(init, parents, target, a, b);
      var i, j :| 0 <= i < j < |init| && init[i] == c0[a] && init[j] == c0[b];
      assert order[i] == c[a] && order[j] == c[b];
    } else {
      ChildIdsWithin(init, parents, target, a);
      var i :| 0 <= i < |init| && init[i] == c0[a];
      assert order[i] == c[a] && order[|order| - 1] == c[b];
    }
  }

  lemma {:induction false} ChildIdsWithin(order: seq<string>, parents: map<string, string>, target: Option<string>, a: int)
    requires forall i :: 0 <= i < |order| ==> order[i] in parents
    requires 0 <= a < |ChildIds(order, parents, target)|
    ensures exists i :: 0 <= i < |order| && order[i] == ChildIds(order, parents, target)[a]
    decreases |order|
  {
    var init := order[..|order| - 1];
    assert forall i :: 0 <= i < |init| ==> init[i] == order[i];
    if a < |ChildIds(init, parents, target)| {
      ChildIdsWithin(init, parents, target, a);
      var i :| 0 <= i < |init| && init[i] == ChildIds(init, parents, target)[a];
      assert order[i] == ChildIds(order, parents, target)[a];
    } else {
      assert order[|order| - 1] == ChildIds(order, parents, target)[a];
    }
  }

  // ---------------------------------------------------------------------
  // read_file_ids

  /** `name.split(".")[0]` */
  function FileId(name: string): (id: string)
    ensures StartsWith(name, id) && '.' !in id
    ensures id == [] <==> name == [] || name[0] == '.'
  {
    SplitFirst(name, ".");
    var id := Split(name, ".")[0];
    assert '.' !in id by {
      if '.' in id {
        var i :| 0 <= i < |id| && id[i] == '.';
        assert IsAt(id, ".", i);
      }
    }
    id
  }

  /** `id2page.get(name.split(".")[0])`: the page index of a page file, the
      key its blocks are stored under, or `None` when its id is not in the
      page map. */
  function PageOfFile(id2page: map<string, int>, name: string): (p: Option<int>)
    ensures p.Some? <==> FileId(name) in id2page
  {
    var pageId := FileId(name);
    if pageId in id2page then Some(id2page[pageId]) else None
  }

  /** The ids `read_file_ids` collects from the directory's names. */
  ghost function FileIds(names: seq<string>): set<string> {
    set i | 0 <= i < |names| && FileId(names[i]) != [] :: FileId(names[i])
  }

  /** `read_file_ids()` over the names the directory listing yields. The
      second test of the loop can never hold: a prefix taken before the first
      '.' does not start with '.'. */
  method ReadFileIds(names: seq<string>) returns (ids: set<string>)
    ensures ids == FileIds(names)
    ensures forall id :: id in ids ==> id != [] && '.' !in id
    ensures forall i :: 0 <= i < |names| && names[i] != [] && names[i][0] != '.' ==> FileId(names[i]) in ids
  {
    ids := {};
    for i := 0 to |names|
      invariant ids == FileIds(names[..i])
    {
      var id := Split(names[i], ".")[0];
      assert id == FileId(names[i]);
      if id == [] || StartsWith(id, ".") {
        continue;
      }
      ids := ids + {id};
    }
    assert names[..|names|] == names;
  }
}
