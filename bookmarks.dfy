/** Bookmark-tree flattening (React/Utils/getBookmarks.ts). The host's
    bookmark list is a tree of `file` and `group` items (other item kinds
    exist and are skipped). Each helper is given twice: a recursive function
    that says what the result is, and a method that builds it the way the
    source does, with a loop that pushes onto or replaces a local list. */
module Bookmarks {
  import opened Text

  /** A bookmark item: a file with its vault path, a group with its title and
      children, or an item of any other kind. */
  datatype Item = File(path: string) | Group(title: string, items: seq<Item>) | Other(kind: string)

  /** `{ title, path }` as `flattenBookmarkGroups` emits it. */
  datatype GroupEntry = GroupEntry(title: string, path: string)

  /** The setting that chooses which bookmarks the page shows. */
  datatype BookmarkSource = All | FromGroup

  // ---------------------------------------------------------------------
  // flattenBookmarks

  /** `flattenBookmarks(items)`: the files in depth-first pre-order, groups
      opened in place. Defined by its last item, as the loop extends its
      result item by item. */
  function Flatten(items: seq<Item>): (r: seq<Item>)
    ensures forall x :: x in r ==> x.File?
    decreases items, 1
  {
    if items == [] then [] else Flatten(items[..|items| - 1]) + Opened(items[|items| - 1])
  }

  /** What one item contributes to `Flatten`: a file itself, a group its
      flattened children, anything else nothing. */
  function Opened(item: Item): (r: seq<Item>)
    ensures forall x :: x in r ==> x.File?
    decreases item, 0
  {
    match item
    case File(_) => [item]
    case Group(_, children) => Flatten(children)
    case Other(_) => []
  }

  /** The number of file leaves reachable through groups. */
  function FileCount(items: seq<Item>): nat
    decreases items
  {
    if items == [] then 0
    else
      FileCount(items[..|items| - 1]) +
      (match items[|items| - 1]
       case File(_) => 1
       case Group(_, children) => FileCount(children)
       case Other(_) => 0)
  }

  /** A file reachable from `items` through groups only. */
  ghost predicate Reaches(items: seq<Item>, f: Item)
    decreases items
  {
    exists i :: 0 <= i < |items| &&
      ((items[i] == f && f.File?) || (items[i].Group? && Reaches(items[i].items, f)))
  }

  /** A file is reachable from a list when it is reachable from all but its
      last item, or from that last item. */
  lemma ReachesSplit(items: seq<Item>, f: Item)
    requires items != []
    ensures Reaches(items, f) <==>
              Reaches(items[..|items| - 1], f) ||
              (items[|items| - 1] == f && f.File?) ||
              (items[|items| - 1].Group? && Reaches(items[|items| - 1].items, f))
  {
    var init := items[..|items| - 1];
    if Reaches(init, f) {
      var i :| 0 <= i < |init| &&
        ((init[i] == f && f.File?) || (init[i].Group? && Reaches(init[i].items, f)));
      assert items[i] == init[i];
    }
    if Reaches(items, f) {
      var i :| 0 <= i < |items| &&
        ((items[i] == f && f.File?) || (items[i].Group? && Reaches(items[i].items, f)));
      if i < |init| {
        assert init[i] == items[i];
      }
    }
  }

  /** Flattening keeps every reachable file and nothing else. */
  lemma {:induction false} FlattenContents(items: seq<Item>)
    ensures forall f :: f in Flatten(items) <==> Reaches(items, f)
    decreases items
  {
    if items != [] {
      var init := items[..|items| - 1];
      var last := items[|items| - 1];
      FlattenContents(init);
      if last.Group? {
        FlattenContents(last.items);
      }
      forall f
        ensures f in Flatten(items) <==> Reaches(items, f)
      {
        ReachesSplit(items, f);
      }
    }
  }

  /** Each file occurrence is kept: the length is the number of file leaves. */
  lemma {:induction false} FlattenLength(items: seq<Item>)
    ensures |Flatten(items)| == FileCount(items)
    decreases items
  {
    if items != [] {
      FlattenLength(items[..|items| - 1]);
      if items[|items| - 1].Group? {
        FlattenLength(items[|items| - 1].items);
      }
    }
  }

  /** Appending one item appends what that item contributes. */
  lemma FlattenSnoc(s: seq<Item>, x: Item)
    ensures Flatten(s + [x]) == Flatten(s) + Opened(x)
  {
    assert (s + [x])[..|s|] == s;
  }

  /** Flattening a concatenation flattens each part: sibling order is kept. */
  lemma {:induction false} FlattenAppend(s: seq<Item>, t: seq<Item>)
    ensures Flatten(s + t) == Flatten(s) + Flatten(t)
    decreases |t|
  {
    if t == [] {
      assert s + t == s;
    } else {
      var t', x := t[..|t| - 1], t[|t| - 1];
      SnocSplit(s, t);
      FlattenAppend(s, t');
      FlattenSnoc(s + t', x);
      FlattenSnoc(t', x);
      SeqAssoc(Flatten(s), Flatten(t'), Opened(x));
    }
  }

  /** A non-empty list is its prefix followed by its last item, also behind
      any other list. */
  lemma SnocSplit(s: seq<Item>, t: seq<Item>)
    requires t != []
    ensures t == t[..|t| - 1] + [t[|t| - 1]]
    ensures s + t == (s + t[..|t| - 1]) + [t[|t| - 1]]
  {
  }

  /** A list of files flattens to itself. */
  lemma {:induction false} FlattenFiles(items: seq<Item>)
    requires forall x :: x in items ==> x.File?
    ensures Flatten(items) == items
    decreases |items|
  {
    if items != [] {
      var init, last := items[..|items| - 1], items[|items| - 1];
      assert items == init + [last];
      assert forall x :: x in init ==> x in items;
      FlattenFiles(init);
      FlattenSnoc(init, last);
    }
  }

  /** `flattenBookmarks` as written: a `forEach` that pushes files and
      concatenates the flattened children of groups. */
  method FlattenBookmarks(items: seq<Item>) returns (flat: seq<Item>)
    ensures flat == Flatten(items)
    decreases items
  {
    flat := [];
    var i := 0;
    while i < |items|
      invariant 0 <= i <= |items|
      invariant flat == Flatten(items[..i])
    {
      var item := items[i];
      assert items[..i + 1] == items[..i] + [item];
      FlattenSnoc(items[..i], item);
      match item {
        case File(_) =>
          flat := flat + [item];
        case Group(_, children) =>
          var nested := FlattenBookmarks(children);
          flat := flat + nested;
        case Other(_) =>
      }
      i := i + 1;
    }
    assert items[..i] == items;
  }

  // ---------------------------------------------------------------------
  // getBookmarksByGroupName

  /** `getBookmarksByGroupName(title, items)`. Among siblings the last
      candidate wins: a matching group always replaces the result, a
      non-matching group's own search only when it found something. */
  function ByGroupName(title: string, items: seq<Item>): (r: seq<Item>)
    ensures forall x :: x in r ==> x.File?
    decreases items
  {
    if items == [] then []
    else
      var found := ByGroupName(title, items[..|items| - 1]);
      match items[|items| - 1]
      case Group(t, children) =>
        if t == title then Flatten(children)
        else
          var nested := ByGroupName(title, children);
          if |nested| > 0 then nested else found
      case _ => found
  }

  /** A group reachable from `items` through groups. */
  ghost predicate HasGroup(items: seq<Item>, g: Item)
    decreases items
  {
    exists i :: 0 <= i < |items| && items[i].Group? && (items[i] == g || HasGroup(items[i].items, g))
  }

  /** The result is empty, or it is the flattened contents of some group, at
      any depth, that has the title. */
  lemma {:induction false} ByGroupNameFindsGroup(title: string, items: seq<Item>)
    ensures ByGroupName(title, items) == [] ||
            exists g :: HasGroup(items, g) && g.Group? && g.title == title && ByGroupName(title, items) == Flatten(g.items)
    decreases items
  {
    if items != [] {
      var init := items[..|items| - 1];
      var last := items[|items| - 1];
      var r := ByGroupName(title, items);
      ByGroupNameFindsGroup(title, init);
      if r != [] {
        if last.Group? && last.title == title {
          assert HasGroup(items, last);
        } else if last.Group? && |ByGroupName(title, last.items)| > 0 {
          ByGroupNameFindsGroup(title, last.items);
          var g :| HasGroup(last.items, g) && g.Group? && g.title == title && r == Flatten(g.items);
          assert HasGroup(items, g);
        } else {
          var g :| HasGroup(init, g) && g.Group? && g.title == title && r == Flatten(g.items);
          var i :| 0 <= i < |init| && init[i].Group? && (init[i] == g || HasGroup(init[i].items, g));
          assert items[i] == init[i];
          assert HasGroup(items, g);
        }
      }
    }
  }

  /** When no group at any depth has the title, the result is empty. */
  lemma NoSuchGroupGivesNothing(title: string, items: seq<Item>)
    requires forall g :: HasGroup(items, g) && g.Group? ==> g.title != title
    ensures ByGroupName(title, items) == []
  {
    ByGroupNameFindsGroup(title, items);
  }

  /** A matching group after its siblings wins, even when it holds no files. */
  lemma LastMatchingGroupWins(title: string, items: seq<Item>, children: seq<Item>)
    ensures ByGroupName(title, items + [Group(title, children)]) == Flatten(children)
  {
    assert (items + [Group(title, children)])[..|items|] == items;
  }

  /** A non-matching group after its siblings replaces their result only
      with a non-empty result of its own. */
  lemma LaterNestedMatchWinsIfNonEmpty(title: string, items: seq<Item>, other: string, children: seq<Item>)
    requires other != title
    ensures ByGroupName(title, items + [Group(other, children)]) ==
              if ByGroupName(title, children) != [] then ByGroupName(title, children)
              else ByGroupName(title, items)
  {
    assert (items + [Group(other, children)])[..|items|] == items;
  }

  /** `getBookmarksByGroupName` as written. */
  method GetBookmarksByGroupName(title: string, items: seq<Item>) returns (found: seq<Item>)
    ensures found == ByGroupName(title, items)
    decreases items
  {
    found := [];
    var i := 0;
    while i < |items|
      invariant 0 <= i <= |items|
      invariant found == ByGroupName(title, items[..i])
    {
      assert items[..i + 1][..i] == items[..i];
      match items[i] {
        case Group(t, children) =>
          if t == title {
            found := FlattenBookmarks(children);
          } else {
            var nested := GetBookmarksByGroupName(title, children);
            if |nested| > 0 {
              found := nested;
            }
          }
        case _ =>
      }
      i := i + 1;
    }
    assert items[..i] == items;
  }

  // ---------------------------------------------------------------------
  // flattenBookmarkGroups

  /** The path of a group under `parentPath`; an empty (or absent) parent
      path is falsy, so the title alone. */
  function GroupPath(parentPath: string, title: string): (p: string)
    ensures parentPath == "" ==> p == title
    ensures parentPath != "" ==> p == parentPath + "/" + title
  {
    if parentPath != "" then parentPath + "/" + title else title
  }

  /** `flattenBookmarkGroups(items, parentPath)`: one entry per group node
      in pre-order; `parentPath == ""` stands for the omitted argument. */
  function FlattenGroups(items: seq<Item>, parentPath: string): (r: seq<GroupEntry>)
    ensures |r| == GroupCount(items)
    decreases items, 1
  {
    if items == [] then []
    else FlattenGroups(items[..|items| - 1], parentPath) + GroupEntries(items[|items| - 1], parentPath)
  }

  /** What one item contributes to `FlattenGroups`: a group its own entry
      followed by its subgroups' entries, anything else nothing. */
  function GroupEntries(item: Item, parentPath: string): (r: seq<GroupEntry>)
    ensures item.Group? ==> |r| == 1 + GroupCount(item.items)
    ensures item.Group? ==> r[0] == GroupEntry(item.title, GroupPath(parentPath, item.title))
    ensures !item.Group? ==> r == []
    decreases item, 0
  {
    match item
    case Group(t, children) =>
      var path := GroupPath(parentPath, t);
      [GroupEntry(t, path)] + FlattenGroups(children, path)
    case _ => []
  }

  /** Appending one item appends what that item contributes. */
  lemma FlattenGroupsSnoc(s: seq<Item>, x: Item, parentPath: string)
    ensures FlattenGroups(s + [x], parentPath) == FlattenGroups(s, parentPath) + GroupEntries(x, parentPath)
  {
    assert (s + [x])[..|s|] == s;
  }

  /** The number of group nodes reachable through groups. */
  function GroupCount(items: seq<Item>): nat
    decreases items
  {
    if items == [] then 0
    else
      GroupCount(items[..|items| - 1]) +
      (match items[|items| - 1]
       case Group(_, children) => 1 + GroupCount(children)
       case _ => 0)
  }

  predicate IsPrefix(p: string, s: string) {
    |p| <= |s| && s[..|p|] == p
  }

  predicate IsSuffix(p: string, s: string) {
    |p| <= |s| && s[|s| - |p|..] == p
  }

  /** Each path ends with its group's title, and under a non-empty parent
      path every path extends that path by "/". */
  lemma {:induction false} FlattenGroupsPaths(items: seq<Item>, parentPath: string)
    ensures forall e :: e in FlattenGroups(items, parentPath) ==> IsSuffix(e.title, e.path)
    ensures parentPath != "" ==>
              forall e :: e in FlattenGroups(items, parentPath) ==> IsPrefix(parentPath + "/", e.path)
    decreases items
  {
    if items != [] {
      var init := items[..|items| - 1];
      FlattenGroupsPaths(init, parentPath);
      match items[|items| - 1]
      case Group(t, children) =>
        var path := GroupPath(parentPath, t);
        FlattenGroupsPaths(children, path);
        if parentPath != "" {
          forall e | e in FlattenGroups(children, path)
            ensures IsPrefix(parentPath + "/", e.path)
          {
            assert IsPrefix(path + "/", e.path);
            assert e.path[..|parentPath + "/"|] == (path + "/")[..|parentPath + "/"|];
          }
        }
      case _ =>
    }
  }

  /** A top-level group's entry carries its title as its path, and its
      subgroups follow it, nested under that path. */
  lemma TopLevelGroup(title: string, children: seq<Item>)
    ensures FlattenGroups([Group(title, children)], "") ==
              [GroupEntry(title, title)] + FlattenGroups(children, title)
  {
    assert [Group(title, children)][..0] == [];
  }

  /** `flattenBookmarkGroups` as written: push the group's entry, then
      concatenate its subgroups' entries. */
  method FlattenBookmarkGroups(items: seq<Item>, parentPath: string) returns (groups: seq<GroupEntry>)
    ensures groups == FlattenGroups(items, parentPath)
    decreases items
  {
    groups := [];
    var i := 0;
    while i < |items|
      invariant 0 <= i <= |items|
      invariant groups == FlattenGroups(items[..i], parentPath)
    {
      assert items[..i + 1] == items[..i] + [items[i]];
      FlattenGroupsSnoc(items[..i], items[i], parentPath);
      match items[i] {
        case Group(t, children) =>
          var path := if parentPath != "" then parentPath + "/" + t else t;
          var before := groups;
          groups := groups + [GroupEntry(t, path)];
          var nested := FlattenBookmarkGroups(children, path);
          groups := groups + nested;
          SeqAssoc(before, [GroupEntry(t, path)], nested);
        case _ =>
      }
      i := i + 1;
    }
    assert items[..i] == items;
  }

  // ---------------------------------------------------------------------
  // getBookmarks

  /** The bookmarks the page lists before they are resolved to vault files. */
  function SelectBookmarks(source: BookmarkSource, bookmarkGroup: string, items: seq<Item>): (r: seq<Item>)
    ensures forall x :: x in r ==> x.File?
  {
    if source == FromGroup then ByGroupName(bookmarkGroup, items) else Flatten(items)
  }

  /** `getBookmarks`: each selected file resolved through the host lookup
      `getAbstractFileByPath`, which is the parameter `lookup`. */
  function GetBookmarks<F>(source: BookmarkSource, bookmarkGroup: string, items: seq<Item>,
                           lookup: string -> F): (r: seq<F>)
    ensures |r| == |SelectBookmarks(source, bookmarkGroup, items)|
    ensures forall i :: 0 <= i < |r| ==> r[i] == lookup(SelectBookmarks(source, bookmarkGroup, items)[i].path)
    ensures source == All ==> |r| == FileCount(items)
  {
    FlattenLength(items);
    var selected := SelectBookmarks(source, bookmarkGroup, items);
    seq(|selected|, i requires 0 <= i < |selected| => lookup(selected[i].path))
  }
}
