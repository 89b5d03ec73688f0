/** The parts of the main view that are not Qt wiring: the category list it
    keeps, the pk-to-name lookup the expense table uses, and the forwarding
    of a new category list to the category editor. */
module MainView {
  import opened Wrappers
  import opened Records
  import opened BookkeeperRules
  import opened CategoryTree

  /** The view's reading of a category record: `c.name`, `c.parent` (a
      NULL parent is `None`) and `c.pk`. */
  function CategoryOf(r: Record): Category
  {
    Category(
      if "name" in r.attrs && r.attrs["name"].Text? then r.attrs["name"].s else "",
      if "parent" in r.attrs && r.attrs["parent"].Int? then Some(r.attrs["parent"].i) else None,
      if r.pk.Some? then r.pk.value else 0)
  }

  function CategoriesOf(recs: seq<Record>): (cats: seq<Category>)
    ensures |cats| == |recs|
    ensures forall i :: 0 <= i < |recs| ==> cats[i] == CategoryOf(recs[i])
  {
    seq(|recs|, i requires 0 <= i < |recs| => CategoryOf(recs[i]))
  }

  /** The categories the coordinator hands to `set_categories` are the
      category table read back, so their pks are ROWIDs and no two are
      equal; the hierarchy walk over them therefore always terminates,
      whatever parent links the table holds. */
  lemma ShownCategoriesTerminate(rows: seq<Row>)
    requires UniqueRowids(rows)
    ensures UniquePks(CategoriesOf(HydrateAll(CategoryFields, rows)))
    ensures Bounded(CategoriesOf(HydrateAll(CategoryFields, rows)), None, |rows|)
  {
    var cats := CategoriesOf(HydrateAll(CategoryFields, rows));
    ShownPks(rows);
    UniquePksTerminate(cats);
  }

  /** Each shown category's pk is its row's ROWID. */
  lemma ShownPks(rows: seq<Row>)
    ensures |CategoriesOf(HydrateAll(CategoryFields, rows))| == |rows|
    ensures forall i :: 0 <= i < |rows| ==> CategoriesOf(HydrateAll(CategoryFields, rows))[i].pk == rows[i].rowid
  {
  }

  /** `[c.name for c in cats if int(c.pk) == int(pk)]` */
  function NamesWithPk(cats: seq<Category>, pk: int): seq<string>
    decreases |cats|
  {
    if |cats| == 0 then []
    else (if cats[0].pk == pk then [cats[0].name] else []) + NamesWithPk(cats[1..], pk)
  }

  /** The comprehension is empty exactly when no category has that pk, and
      otherwise starts with the name of the first one that has it. */
  lemma {:induction false} NamesWithPkHead(cats: seq<Category>, pk: int)
    ensures |NamesWithPk(cats, pk)| == 0 <==> forall i :: 0 <= i < |cats| ==> cats[i].pk != pk
    ensures forall i :: 0 <= i < |cats| && cats[i].pk == pk && (forall j :: 0 <= j < i ==> cats[j].pk != pk) ==>
      NamesWithPk(cats, pk)[0] == cats[i].name
    decreases |cats|
  {
    if |cats| > 0 {
      NamesWithPkHead(cats[1..], pk);
      if cats[0].pk != pk {
        forall i | 0 < i < |cats| && cats[i].pk == pk && (forall j :: 0 <= j < i ==> cats[j].pk != pk)
          ensures NamesWithPk(cats, pk)[0] == cats[i].name
        {
          assert cats[1..][i - 1] == cats[i];
          assert forall j :: 0 <= j < i - 1 ==> cats[1..][j] == cats[j + 1];
        }
        assert forall i :: 0 < i < |cats| ==> cats[1..][i - 1] == cats[i];
      }
    }
  }

  /** `category_pk_to_name(pk)`: the name of the first category, in list
      order, whose pk is `pk`, or the empty string when there is none. */
  function PkToName(cats: seq<Category>, pk: int): (name: string)
    ensures (forall i :: 0 <= i < |cats| ==> cats[i].pk != pk) ==> name == ""
    ensures forall i :: 0 <= i < |cats| && cats[i].pk == pk && (forall j :: 0 <= j < i ==> cats[j].pk != pk) ==>
      name == cats[i].name
  {
    NamesWithPkHead(cats, pk);
    var names := NamesWithPk(cats, pk);
    if |names| > 0 then names[0] else ""
  }

  /** When no two categories share a pk, as for categories read back from
      the repository, the lookup gives the name of the category with that
      pk, wherever it sits in the list. */
  lemma PkToNameUnique(cats: seq<Category>, pk: int, i: nat)
    requires UniquePks(cats) && i < |cats| && cats[i].pk == pk
    ensures PkToName(cats, pk) == cats[i].name
  {
    forall j | 0 <= j < i
      ensures cats[j].pk != pk
    {
      assert cats[j].pk != cats[i].pk;
    }
  }

  /** The view's test data: pk 1 gives "cat1", pk 3 gives nothing. */
  lemma SampleLookups()
    ensures PkToName([Category("cat1", None, 1), Category("cat2", None, 2)], 1) == "cat1"
    ensures PkToName([Category("cat1", None, 1), Category("cat2", None, 2)], 3) == ""
  {
    var cats := [Category("cat1", None, 1), Category("cat2", None, 2)];
    assert cats[0].pk == 1;
    assert forall i :: 0 <= i < |cats| ==> cats[i].pk != 3;
  }

  /** `View`: the category list and the category editor it forwards the
      list to. */
  class View {
    var categories: seq<Category>
    const catsEditWindow: CategoryEditWindow

    /** The view starts with no categories and builds its editor on that
        empty list. */
    constructor()
      ensures categories == []
      ensures catsEditWindow.categories == [] && catsEditWindow.tree == []
      ensures catsEditWindow.catNames == [] && catsEditWindow.parentChoices == [NoParentCategory]
    {
      categories := [];
      assert Bounded([], None, 0);
      var w := new CategoryEditWindow([]);
      HierarchyUnique([], None, w.tree, []);
      catsEditWindow := w;
    }

    /** `category_pk_to_name` on the view's current list. */
    function CategoryPkToName(pk: int): (name: string)
      reads this
      ensures (forall i :: 0 <= i < |categories| ==> categories[i].pk != pk) ==> name == ""
      ensures forall i :: 0 <= i < |categories| && categories[i].pk == pk && (forall j :: 0 <= j < i ==> categories[j].pk != pk) ==>
        name == categories[i].name
    {
      PkToName(categories, pk)
    }

    /** `set_categories` stores the list unchanged and hands the same list
        to the category editor, whose name lists and tree stay as they were
        until it rebuilds them. */
    method SetCategories(cats: seq<Category>)
      modifies this, catsEditWindow
      ensures categories == cats && catsEditWindow.categories == cats
      ensures catsEditWindow.catNames == old(catsEditWindow.catNames)
      ensures catsEditWindow.tree == old(catsEditWindow.tree)
      ensures catsEditWindow.deleteChoices == old(catsEditWindow.deleteChoices)
      ensures catsEditWindow.parentChoices == old(catsEditWindow.parentChoices)
    {
      categories := cats;
      catsEditWindow.SetCategories(categories);
    }
  }
}
