/** The category editor's data side: the name lists offered for deletion
    and as parents, and the category hierarchy `find_children` builds from
    the parent links.  The Qt widgets themselves are not modelled; the tree
    the window shows is kept as a value. */
module CategoryTree {
  import opened Wrappers

  /** A category as the view sees it: its name, the pk of its parent
      (`None` at the top level) and its own pk. */
  datatype Category = Category(name: string, parent: Option<int>, pk: int)

  /** A tree-widget item: the category name and its sub-items. */
  datatype Item = Item(name: string, children: seq<Item>)

  /** The first entry of the parent choice list, meaning "no parent". */
  const NoParentCategory: string := "- Без родительской категории -"

  /** `[c.name for c in cats]` */
  function CatNames(cats: seq<Category>): (names: seq<string>)
    ensures |names| == |cats|
    ensures forall i :: 0 <= i < |cats| ==> names[i] == cats[i].name
  {
    seq(|cats|, i requires 0 <= i < |cats| => cats[i].name)
  }

  /** `[c for c in cats if c.parent == parent]` */
  function Children(cats: seq<Category>, parent: Option<int>): seq<Category>
    decreases |cats|
  {
    if |cats| == 0 then []
    else (if cats[0].parent == parent then [cats[0]] else []) + Children(cats[1..], parent)
  }

  /** The filter keeps exactly the categories with that parent. */
  lemma {:induction false} ChildrenMembers(cats: seq<Category>, parent: Option<int>)
    ensures forall c :: c in Children(cats, parent) <==> c in cats && c.parent == parent
    decreases |cats|
  {
    if |cats| > 0 {
      ChildrenMembers(cats[1..], parent);
      assert cats == [cats[0]] + cats[1..];
    }
  }

  /** The filter keeps list order: filtering a concatenation concatenates
      the filtered parts. */
  lemma {:induction false} ChildrenConcat(a: seq<Category>, b: seq<Category>, parent: Option<int>)
    ensures Children(a + b, parent) == Children(a, parent) + Children(b, parent)
    decreases |a|
  {
    if |a| == 0 {
      assert a + b == b;
    } else {
      var head := if a[0].parent == parent then [a[0]] else [];
      assert (a + b)[0] == a[0] && (a + b)[1..] == a[1..] + b;
      assert Children(a + b, parent) == head + Children(a[1..] + b, parent);
      ChildrenConcat(a[1..], b, parent);
      assert Children(a, parent) == head + Children(a[1..], parent);
    }
  }

  // ---------------------------------------------------------------------
  // Termination of the walk

  /** Every chain of parent links walked down from `parent` is shorter
      than `height`: the recursion of `find_children(parent)` stops after
      at most `height` levels.  It holds for some `height` exactly when the
      walk terminates. */
  ghost predicate Bounded(cats: seq<Category>, parent: Option<int>, height: nat)
    decreases height
  {
    forall i :: 0 <= i < |cats| && cats[i].parent == parent ==>
      height > 0 && Bounded(cats, Some(cats[i].pk), height - 1)
  }

  /** `find_children(parent_pk)`: one item per category whose parent is
      `parentPk`, in list order, each carrying the items of its own
      children.  `height` is a ghost witness that the walk terminates. */
  function FindChildren(cats: seq<Category>, parentPk: Option<int>, ghost height: nat): seq<Item>
    requires Bounded(cats, parentPk, height)
    decreases height, 1, 0
  {
    ChildrenBounded(cats, parentPk, height);
    Items(cats, Children(cats, parentPk), height)
  }

  lemma ChildrenBounded(cats: seq<Category>, parent: Option<int>, height: nat)
    requires Bounded(cats, parent, height)
    ensures forall c :: c in Children(cats, parent) ==> height > 0 && Bounded(cats, Some(c.pk), height - 1)
  {
    ChildrenMembers(cats, parent);
    forall c | c in Children(cats, parent)
      ensures height > 0 && Bounded(cats, Some(c.pk), height - 1)
    {
      var i :| 0 <= i < |cats| && cats[i] == c;
    }
  }

  /** The loop over `children` in `find_children`. */
  function Items(cats: seq<Category>, kids: seq<Category>, ghost height: nat): seq<Item>
    requires forall c :: c in kids ==> height > 0 && Bounded(cats, Some(c.pk), height - 1)
    decreases height, 0, |kids|
  {
    if |kids| == 0 then []
    else [Item(kids[0].name, FindChildren(cats, Some(kids[0].pk), height - 1))] + Items(cats, kids[1..], height)
  }

  /** The hierarchy below `parent`, stated independently of how it is
      built: one item per category with that parent, in list order, named
      after it and holding the hierarchy below that category's pk. */
  ghost predicate IsHierarchy(cats: seq<Category>, parent: Option<int>, items: seq<Item>)
    decreases items
  {
    var kids := Children(cats, parent);
    && |items| == |kids|
    && forall k :: 0 <= k < |items| ==>
         items[k].name == kids[k].name && IsHierarchy(cats, Some(kids[k].pk), items[k].children)
  }

  lemma {:induction false} ItemsAt(cats: seq<Category>, kids: seq<Category>, height: nat)
    requires forall c :: c in kids ==> height > 0 && Bounded(cats, Some(c.pk), height - 1)
    ensures |Items(cats, kids, height)| == |kids|
    ensures forall k :: 0 <= k < |kids| ==>
      Items(cats, kids, height)[k] == Item(kids[k].name, FindChildren(cats, Some(kids[k].pk), height - 1))
    decreases |kids|
  {
    if |kids| > 0 {
      assert forall c :: c in kids[1..] ==> c in kids;
      ItemsAt(cats, kids[1..], height);
    }
  }

  /** `find_children` builds exactly the hierarchy: the top level
      (`parentPk == None`) is the categories without a parent in list
      order, and below every item are the categories whose parent is that
      item's pk, in list order, recursively. */
  lemma {:induction false} FindChildrenIsHierarchy(cats: seq<Category>, parentPk: Option<int>, height: nat)
    requires Bounded(cats, parentPk, height)
    ensures IsHierarchy(cats, parentPk, FindChildren(cats, parentPk, height))
    decreases height
  {
    var kids := Children(cats, parentPk);
    ChildrenMembers(cats, parentPk);
    var items := FindChildren(cats, parentPk, height);
    ItemsAt(cats, kids, height);
    forall k | 0 <= k < |items|
      ensures IsHierarchy(cats, Some(kids[k].pk), items[k].children)
    {
      FindChildrenIsHierarchy(cats, Some(kids[k].pk), height - 1);
    }
  }

  /** There is only one hierarchy below a given parent. */
  lemma {:induction false} HierarchyUnique(cats: seq<Category>, parent: Option<int>, a: seq<Item>, b: seq<Item>)
    requires IsHierarchy(cats, parent, a) && IsHierarchy(cats, parent, b)
    ensures a == b
    decreases a
  {
    var kids := Children(cats, parent);
    forall k | 0 <= k < |a|
      ensures a[k] == b[k]
    {
      HierarchyUnique(cats, Some(kids[k].pk), a[k].children, b[k].children);
    }
  }

  /** The tree does not depend on the termination witness. */
  lemma HeightIrrelevant(cats: seq<Category>, parentPk: Option<int>, h1: nat, h2: nat)
    requires Bounded(cats, parentPk, h1) && Bounded(cats, parentPk, h2)
    ensures FindChildren(cats, parentPk, h1) == FindChildren(cats, parentPk, h2)
  {
    FindChildrenIsHierarchy(cats, parentPk, h1);
    FindChildrenIsHierarchy(cats, parentPk, h2);
    HierarchyUnique(cats, parentPk, FindChildren(cats, parentPk, h1), FindChildren(cats, parentPk, h2));
  }

  // ---------------------------------------------------------------------
  // When the walk terminates

  /** No two categories share a pk, as when every pk is a ROWID. */
  predicate UniquePks(cats: seq<Category>)
  {
    forall i, j :: 0 <= i < j < |cats| ==> cats[i].pk != cats[j].pk
  }

  /** A path of the walk from the top: distinct category indices, the first
      without a parent, each next one a child of the one before. */
  ghost predicate Chain(cats: seq<Category>, path: seq<nat>)
  {
    && (forall k :: 0 <= k < |path| ==> path[k] < |cats|)
    && (forall k, l :: 0 <= k < l < |path| ==> path[k] != path[l])
    && (|path| > 0 ==> cats[path[0]].parent == None)
    && (forall k :: 0 < k < |path| ==> cats[path[k]].parent == Some(cats[path[k - 1]].pk))
  }

  /** The `parent_pk` the walk is called with at the end of a path. */
  ghost function Tip(cats: seq<Category>, path: seq<nat>): Option<int>
    requires Chain(cats, path)
  {
    if |path| == 0 then None else Some(cats[path[|path| - 1]].pk)
  }

  lemma {:induction false} SmallSet(s: set<nat>, n: nat)
    requires forall x :: x in s ==> x < n
    ensures |s| <= n
    decreases n
  {
    if n > 0 {
      SmallSet(s - {n - 1}, n - 1);
    }
  }

  function Visited(path: seq<nat>): set<nat>
  {
    set k | 0 <= k < |path| :: path[k]
  }

  lemma {:induction false} DistinctSetSize(path: seq<nat>)
    requires forall k, l :: 0 <= k < l < |path| ==> path[k] != path[l]
    ensures |Visited(path)| == |path|
    decreases |path|
  {
    if |path| == 0 {
      assert Visited(path) == {};
    } else {
      var init := path[..|path| - 1];
      DistinctSetSize(init);
      assert Visited(path) == Visited(init) + {path[|path| - 1]};
      assert path[|path| - 1] !in Visited(init);
    }
  }

  /** A path visits each category at most once, so it is no longer than
      the category list. */
  lemma ChainLength(cats: seq<Category>, path: seq<nat>)
    requires Chain(cats, path)
    ensures |path| <= |cats|
  {
    DistinctSetSize(path);
    SmallSet(Visited(path), |cats|);
  }

  /** With unique pks a child of the path's tip is not on the path yet: its
      parent link determines its predecessor, and the path's first
      category has no parent. */
  lemma ChainExtends(cats: seq<Category>, path: seq<nat>, i: nat)
    requires UniquePks(cats) && Chain(cats, path)
    requires i < |cats| && cats[i].parent == Tip(cats, path)
    ensures Chain(cats, path + [i])
  {
    var last := |path| - 1;
    forall m | 0 <= m < |path|
      ensures cats[path[m]].parent != Tip(cats, path)
    {
      if m > 0 {
        var a, b := path[m - 1], path[last];
        assert a != b;
        if a < b {
          assert cats[a].pk != cats[b].pk;
        } else {
          assert cats[b].pk != cats[a].pk;
        }
      }
    }
  }

  lemma {:induction false} ChainBounded(cats: seq<Category>, path: seq<nat>)
    requires UniquePks(cats) && Chain(cats, path)
    ensures |path| <= |cats|
    ensures Bounded(cats, Tip(cats, path), |cats| - |path|)
    decreases |cats| - |path|
  {
    ChainLength(cats, path);
    var h: nat := |cats| - |path|;
    forall i | 0 <= i < |cats| && cats[i].parent == Tip(cats, path)
      ensures h > 0 && Bounded(cats, Some(cats[i].pk), h - 1)
    {
      ChainExtends(cats, path, i);
      ChainBounded(cats, path + [i]);
      assert Tip(cats, path + [i]) == Some(cats[i].pk);
    }
  }

  /** When no two categories share a pk, as is the case for categories read
      back from the repository, the walk from the top terminates after at
      most one level per category, whatever the parent links are. */
  lemma UniquePksTerminate(cats: seq<Category>)
    requires UniquePks(cats)
    ensures Bounded(cats, None, |cats|)
  {
    assert Chain(cats, []);
    ChainBounded(cats, []);
  }

  /** A cycle of parent links: each category's parent is the pk of the one
      before it, and the first one's parent is the pk of the last. */
  ghost predicate Cycle(cats: seq<Category>, cyc: seq<nat>)
  {
    && |cyc| > 0
    && (forall k :: 0 <= k < |cyc| ==> cyc[k] < |cats|)
    && cats[cyc[0]].parent == Some(cats[cyc[|cyc| - 1]].pk)
    && (forall k :: 0 < k < |cyc| ==> cats[cyc[k]].parent == Some(cats[cyc[k - 1]].pk))
  }

  /** Once the walk reaches a pk on a cycle it never stops: no height
      bounds it. */
  lemma {:induction false} CycleUnbounded(cats: seq<Category>, cyc: seq<nat>, height: nat)
    requires Cycle(cats, cyc)
    ensures forall k :: 0 <= k < |cyc| ==> !Bounded(cats, Some(cats[cyc[k]].pk), height)
    decreases height
  {
    forall k | 0 <= k < |cyc|
      ensures !Bounded(cats, Some(cats[cyc[k]].pk), height)
    {
      var next := if k + 1 < |cyc| then k + 1 else 0;
      assert cats[cyc[next]].parent == Some(cats[cyc[k]].pk);
      if height > 0 {
        CycleUnbounded(cats, cyc, height - 1);
        assert !Bounded(cats, Some(cats[cyc[next]].pk), height - 1);
      }
    }
  }

  /** A cycle is reached from the top only through a shared pk: with a
      top-level category with pk 1 and a category with pk 1 whose parent is
      1, no depth bounds the walk of `find_children()`; CPython stops it by
      raising `RecursionError` at its recursion limit. */
  lemma SharedPkHangs(height: nat)
    ensures !Bounded([Category("a", None, 1), Category("b", Some(1), 1)], None, height)
  {
    var cats := [Category("a", None, 1), Category("b", Some(1), 1)];
    assert Cycle(cats, [1]);
    assert cats[0].parent == None;
    if height > 0 {
      CycleUnbounded(cats, [1], height - 1);
      assert !Bounded(cats, Some(cats[0].pk), height - 1);
    }
    assert !Bounded(cats, None, height);
  }

  /** The window's test data: cat1 and cat2 at the top, cat11 and cat12
      under cat1, cat121 under cat12. */
  const SampleCategories: seq<Category> :=
    [Category("cat1", None, 1), Category("cat2", None, 2), Category("cat11", Some(1), 11),
     Category("cat12", Some(1), 12), Category("cat121", Some(12), 121)]

  /** The filter on the test data, parent by parent. */
  lemma SampleChildren()
    ensures Children(SampleCategories, None) == [SampleCategories[0], SampleCategories[1]]
    ensures Children(SampleCategories, Some(1)) == [SampleCategories[2], SampleCategories[3]]
    ensures Children(SampleCategories, Some(12)) == [SampleCategories[4]]
    ensures Children(SampleCategories, Some(2)) == []
    ensures Children(SampleCategories, Some(11)) == []
    ensures Children(SampleCategories, Some(121)) == []
  {
    var cats := SampleCategories;
    assert cats[1..] == [cats[1], cats[2], cats[3], cats[4]];
    assert cats[1..][1..] == [cats[2], cats[3], cats[4]];
    assert cats[1..][1..][1..] == [cats[3], cats[4]];
    assert cats[1..][1..][1..][1..] == [cats[4]];
    assert cats[1..][1..][1..][1..][1..] == [];
  }

  /** The expected tree is the hierarchy of the test data. */
  lemma SampleIsHierarchy()
    ensures IsHierarchy(SampleCategories, None,
              [Item("cat1", [Item("cat11", []), Item("cat12", [Item("cat121", [])])]), Item("cat2", [])])
  {
    var cats := SampleCategories;
    SampleChildren();
    assert IsHierarchy(cats, Some(121), []);
    assert IsHierarchy(cats, Some(11), []);
    assert IsHierarchy(cats, Some(2), []);
    assert IsHierarchy(cats, Some(12), [Item("cat121", [])]);
    assert IsHierarchy(cats, Some(1), [Item("cat11", []), Item("cat12", [Item("cat121", [])])]);
  }

  /** The tree built from the test data has cat1 and cat2 at the top,
      cat11 and cat12 below cat1 and cat121 below cat12. */
  lemma SampleHierarchy()
    ensures Bounded(SampleCategories, None, 5)
    ensures FindChildren(SampleCategories, None, 5) ==
              [Item("cat1", [Item("cat11", []), Item("cat12", [Item("cat121", [])])]), Item("cat2", [])]
  {
    var cats := SampleCategories;
    UniquePksTerminate(cats);
    SampleIsHierarchy();
    FindChildrenIsHierarchy(cats, None, 5);
    HierarchyUnique(cats, None, FindChildren(cats, None, 5),
      [Item("cat1", [Item("cat11", []), Item("cat12", [Item("cat121", [])])]), Item("cat2", [])]);
  }

  // ---------------------------------------------------------------------
  // The window

  /** `CategoriesEditWindow`: the category list it was given, and the name
      lists and tree `update_categories` derives from it. */
  class CategoryEditWindow {
    var categories: seq<Category>
    var catNames: seq<string>
    var tree: seq<Item>
    var deleteChoices: seq<string>
    var parentChoices: seq<string>

    /** The window stores the categories, then builds its lists and tree. */
    constructor(cats: seq<Category>)
      requires exists h :: Bounded(cats, None, h)
      ensures categories == cats
      ensures catNames == CatNames(cats) && IsHierarchy(cats, None, tree)
      ensures deleteChoices == catNames && parentChoices == [NoParentCategory] + catNames
    {
      categories := cats;
      new;
      ghost var h :| Bounded(cats, None, h);
      assert Bounded(categories, None, h);
      UpdateCategories();
    }

    /** `set_categories` only stores the list; the lists and the tree are
        rebuilt by the next `update_categories`. */
    method SetCategories(cats: seq<Category>)
      modifies this
      ensures categories == cats
      ensures catNames == old(catNames) && tree == old(tree)
      ensures deleteChoices == old(deleteChoices) && parentChoices == old(parentChoices)
    {
      categories := cats;
    }

    /** `update_categories`: the names in list order, the hierarchy walked
        from the top, the names as deletion choices and, after the
        no-parent entry, as parent choices. */
    method UpdateCategories()
      requires exists h :: Bounded(categories, None, h)
      modifies this
      ensures categories == old(categories)
      ensures catNames == CatNames(categories) && IsHierarchy(categories, None, tree)
      ensures deleteChoices == catNames && parentChoices == [NoParentCategory] + catNames
    {
      ghost var h :| Bounded(categories, None, h);
      catNames := CatNames(categories);
      tree := FindChildren(categories, None, h);
      FindChildrenIsHierarchy(categories, None, h);
      deleteChoices := catNames;
      parentChoices := [NoParentCategory] + catNames;
    }
  }
}
