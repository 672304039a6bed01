/** js/categories.js: the category modal, whose selection of foods survives
    the search over the food list, the saving of a category, and the switch
    between the food and the category view of the plot. */
module Categories {
  import opened JsString
  import opened JsArray

  // ------------------------------------------------------------ normalising

  /** `normalizeText` of js/categories.js: a missing text counts as empty;
      the text is lower-cased, decomposed (NFD) and stripped of every
      combining mark, but not trimmed. */
  function NormalizeText(rt: Runtime, s: Option<string>): (r: string)
    ensures forall i :: 0 <= i < |r| ==> !IsCombiningMark(r[i])
  {
    var t := if s.Some? && s.value != "" then s.value else "";
    StripCombiningMarks(rt.nfd(rt.toLowerCase(t)))
  }

  /** A missing or empty text normalises to the empty string. */
  lemma NormalizeMissing(rt: Runtime)
    requires KeepsEmpty(rt)
    ensures NormalizeText(rt, None) == "" && NormalizeText(rt, Some("")) == ""
  {
  }

  /** A text that lower-casing and decomposition leave alone, and that has no
      combining mark, comes out as it went in, white space included. */
  lemma {:induction false} NormalizeKeepsPlainText(rt: Runtime, s: string)
    requires rt.toLowerCase(s) == s && rt.nfd(s) == s
    requires forall i :: 0 <= i < |s| ==> !IsCombiningMark(s[i])
    ensures NormalizeText(rt, Some(s)) == s
  {
    if s != "" {
      StripCombiningMarksKeeps(s);
    }
  }

  // -------------------------------------------------------------- food list

  function ContainsNorm(rt: Runtime, filterNorm: string): string -> bool {
    f => Includes(NormalizeText(rt, Some(f)), filterNorm)
  }

  /** The foods offered in the modal: the distinct item texts, sorted by
      `Array.prototype.sort` without a comparator, then, when the normalised
      filter is not empty, those whose normal form contains it. */
  function FoodList(rt: Runtime, texts: seq<string>, filter: string): seq<string> {
    var uniqueFoods := SortBy(Distinct(texts), StringLess);
    var filterNorm := NormalizeText(rt, Some(filter));
    if filterNorm != "" then FoodsMatching(rt, uniqueFoods, filterNorm) else uniqueFoods
  }

  /** `foods.filter(f => normalizeText(f).includes(filterNorm))`. */
  function FoodsMatching(rt: Runtime, foods: seq<string>, filterNorm: string): seq<string> {
    if foods == [] then []
    else
      var n := |foods| - 1;
      FoodsMatching(rt, foods[..n], filterNorm) + (if ContainsNorm(rt, filterNorm)(foods[n]) then [foods[n]] else [])
  }

  lemma {:induction false} FoodsMatchingIsFilter(rt: Runtime, foods: seq<string>, filterNorm: string)
    ensures FoodsMatching(rt, foods, filterNorm) == Filter(foods, ContainsNorm(rt, filterNorm))
  {
    if foods != [] {
      FoodsMatchingIsFilter(rt, foods[..|foods| - 1], filterNorm);
    }
  }

  /** Each food once, in ascending order, and exactly the item texts that pass
      the filter; an empty filter passes them all. */
  lemma {:induction false} FoodListShape(rt: Runtime, texts: seq<string>, filter: string)
    ensures var r := FoodList(rt, texts, filter);
      var filterNorm := NormalizeText(rt, Some(filter));
      && NoDuplicates(r)
      && (forall i, j :: 0 <= i < j < |r| ==> StringLess(r[i], r[j]))
      && (forall f :: f in r <==> f in texts && Passes(rt, filterNorm, f))
  {
    var filterNorm := NormalizeText(rt, Some(filter));
    var u := SortBy(Distinct(texts), StringLess);
    var r := FoodList(rt, texts, filter);
    SortedFoodsShape(texts);
    FoodListNoDuplicates(rt, texts, filter);
    FoodsMatchingIsFilter(rt, u, filterNorm);
    if filterNorm != "" {
      FilterSorted(u, ContainsNorm(rt, filterNorm), StringLess);
    }
    Ascending(r);
    FoodListMembers(rt, texts, filter);
  }

  /** The filter test, including the case of an empty filter. */
  predicate Passes(rt: Runtime, filterNorm: string, f: string) {
    filterNorm == "" || Includes(NormalizeText(rt, Some(f)), filterNorm)
  }

  lemma {:induction false} FoodListMembers(rt: Runtime, texts: seq<string>, filter: string)
    ensures var filterNorm := NormalizeText(rt, Some(filter));
      forall f :: f in FoodList(rt, texts, filter) <==> f in texts && Passes(rt, filterNorm, f)
  {
    forall f ensures f in FoodList(rt, texts, filter) <==> f in texts && Passes(rt, NormalizeText(rt, Some(filter)), f) {
      FoodListMember(rt, texts, filter, f);
    }
  }

  lemma {:induction false} FoodListMember(rt: Runtime, texts: seq<string>, filter: string, f: string)
    ensures f in FoodList(rt, texts, filter) <==> f in texts && Passes(rt, NormalizeText(rt, Some(filter)), f)
  {
    var filterNorm := NormalizeText(rt, Some(filter));
    var u := SortBy(Distinct(texts), StringLess);
    SortedFoodsShape(texts);
    if filterNorm != "" {
      FoodsMatchingIsFilter(rt, u, filterNorm);
      FilterKeeps(u, ContainsNorm(rt, filterNorm), f);
    }
  }

  /** `[...new Set(texts)].sort()`: the distinct texts, sorted. */
  lemma {:induction false} SortedFoodsShape(texts: seq<string>)
    ensures var u := SortBy(Distinct(texts), StringLess);
      && NoDuplicates(u) && Sorted(u, StringLess)
      && forall f :: f in u <==> f in texts
  {
    var d := Distinct(texts);
    var u := SortBy(d, StringLess);
    PermutationNoDuplicates(d, u);
    StringLessIsStrictOrder(d);
    SortBySorted(d, StringLess);
    forall f ensures f in u <==> f in texts {
      assert f in u <==> f in multiset(d);
    }
  }

  /** Sorted without duplicates is strictly ascending. */
  lemma {:induction false} Ascending(r: seq<string>)
    requires NoDuplicates(r) && Sorted(r, StringLess)
    ensures forall i, j :: 0 <= i < j < |r| ==> StringLess(r[i], r[j])
  {
    forall i, j | 0 <= i < j < |r| ensures StringLess(r[i], r[j]) {
      StringLessTotal(r[i], r[j]);
    }
  }

  lemma {:induction false} FoodListNoDuplicates(rt: Runtime, texts: seq<string>, filter: string)
    ensures NoDuplicates(FoodList(rt, texts, filter))
  {
    var filterNorm := NormalizeText(rt, Some(filter));
    SortedFoodsShape(texts);
    FoodsMatchingIsFilter(rt, SortBy(Distinct(texts), StringLess), filterNorm);
    if filterNorm != "" {
      FilterNoDuplicates(SortBy(Distinct(texts), StringLess), ContainsNorm(rt, filterNorm));
    }
  }

  // ------------------------------------------------------------- the modal

  /** A stored category record. `foods` may be missing from a record this
      form did not write; the form never writes `items`. */
  datatype Category = Category(name: string, color: string, foods: Option<seq<string>>, items: Option<seq<string>>)

  /** `cat.foods || []`. */
  function FoodsOf(c: Category): seq<string> {
    if c.foods.Some? then c.foods.value else []
  }

  /** A call into the category store: `addCategory`, or `updateCategory`
      with the key as `parseInt` read it (`None` for NaN). */
  datatype CategoryWrite =
    | AddCategory(category: Category)
    | UpdateCategory(key: Option<int>, category: Category)

  /** The food checklist of the modal: `categoryModalSelectedFoods`, a Set
      held as its elements in insertion order, and the checkboxes on
      display, in order, with their states. */
  class FoodChecklist {
    var selected: seq<string>
    var displayed: seq<string>
    var checked: seq<bool>

    constructor ()
      ensures selected == [] && displayed == [] && checked == []
      ensures Valid()
    {
      selected := [];
      displayed := [];
      checked := [];
    }

    /** The selection is a set, each food is offered once, and a checkbox is
        checked exactly when its food is selected. */
    predicate Valid()
      reads this
    {
      && NoDuplicates(selected)
      && NoDuplicates(displayed)
      && |checked| == |displayed|
      && forall i :: 0 <= i < |displayed| ==> (checked[i] <==> displayed[i] in selected)
    }
  }

  /** The rest of the module-level state of js/categories.js and the modal's
      fields: the search box, the name and colour inputs, and
      `form.dataset.categoryKey`. */
  class CategoryPage {
    const checklist: FoodChecklist
    var search: string
    var name: string
    var color: string
    var categoryKey: Option<string>
    var modalOpen: bool
    var alerts: seq<string>
    var writes: seq<CategoryWrite>
    var showCategoriesInPlot: bool

    constructor ()
      ensures fresh(checklist) && checklist.selected == [] && checklist.Valid()
      ensures search == "" && name == "" && categoryKey == None && !modalOpen
      ensures alerts == [] && writes == [] && !showCategoriesInPlot
    {
      checklist := new FoodChecklist();
      search := "";
      name := "";
      color := "";
      categoryKey := None;
      modalOpen := false;
      alerts := [];
      writes := [];
      showCategoriesInPlot := false;
    }
  }

  /** `updateFoodCheckboxes` of js/categories.js: a non-empty `assignedFoods`
      replaces the selection, an empty one keeps it; the checkboxes are
      rebuilt from the food list, each checked when its food is selected. */
  method UpdateFoodCheckboxes(c: FoodChecklist, rt: Runtime, texts: seq<string>, assignedFoods: seq<string>, filter: string)
    requires NoDuplicates(c.selected)
    modifies c
    ensures c.selected == if assignedFoods != [] then Distinct(assignedFoods) else old(c.selected)
    ensures c.displayed == FoodList(rt, texts, filter)
    ensures c.Valid()
  {
    if assignedFoods != [] {
      c.selected := Distinct(assignedFoods);
    }
    var uniqueFoods := FoodList(rt, texts, filter);
    FoodListNoDuplicates(rt, texts, filter);
    var boxes := CheckboxStates(uniqueFoods, c.selected);
    c.displayed := uniqueFoods;
    c.checked := boxes;
  }

  /** The `forEach` that creates one checkbox per food, checked when the
      selection has the food. */
  method CheckboxStates(foods: seq<string>, selection: seq<string>) returns (boxes: seq<bool>)
    ensures |boxes| == |foods|
    ensures forall j :: 0 <= j < |foods| ==> (boxes[j] <==> foods[j] in selection)
  {
    boxes := [];
    var i := 0;
    while i < |foods|
      invariant 0 <= i <= |foods| && |boxes| == i
      invariant forall j :: 0 <= j < i ==> (boxes[j] <==> foods[j] in selection)
    {
      boxes := boxes + [foods[i] in selection];
      i := i + 1;
    }
  }

  /** The `change` listener of the checkbox at position `i`: the food is added
      to or deleted from the selection, and nothing else is. */
  method ToggleFood(c: FoodChecklist, i: nat, on: bool)
    requires c.Valid() && i < |c.displayed|
    modifies c
    ensures c.checked == old(c.checked)[i := on]
    ensures c.selected == if on then SetAdd(old(c.selected), old(c.displayed)[i]) else SetDelete(old(c.selected), old(c.displayed)[i])
    ensures forall x :: x in c.selected <==> if x == old(c.displayed)[i] then on else x in old(c.selected)
    ensures c.displayed == old(c.displayed)
    ensures c.Valid()
  {
    var food := c.displayed[i];
    c.checked := c.checked[i := on];
    if on {
      SetAddMembers(c.selected, food);
      c.selected := SetAdd(c.selected, food);
    } else {
      SetDeleteMembers(c.selected, food);
      c.selected := SetDelete(c.selected, food);
    }
    forall j | 0 <= j < |c.displayed| && j != i
      ensures c.checked[j] <==> c.displayed[j] in c.selected
    {
      assert c.displayed[j] != food;
    }
  }

  /** The values of the checked checkboxes, in order. */
  function CheckedFoods(displayed: seq<string>, checked: seq<bool>): seq<string>
    requires |checked| == |displayed|
  {
    if displayed == [] then []
    else
      var n := |displayed| - 1;
      CheckedFoods(displayed[..n], checked[..n]) + (if checked[n] then [displayed[n]] else [])
  }

  function InSet(s: seq<string>): string -> bool {
    x => x in s
  }

  /** On a consistent checklist the checked foods are the selected ones on
      display. */
  lemma {:induction false} CheckedFoodsSelected(displayed: seq<string>, checked: seq<bool>, selected: seq<string>)
    requires |checked| == |displayed|
    requires forall i :: 0 <= i < |displayed| ==> (checked[i] <==> displayed[i] in selected)
    ensures CheckedFoods(displayed, checked) == Filter(displayed, InSet(selected))
  {
    if displayed != [] {
      var n := |displayed| - 1;
      CheckedFoodsSelected(displayed[..n], checked[..n], selected);
    }
  }

  /** The selection `filterCategoryFoods` leaves: the checked foods when there
      are any, otherwise the selection as it was. */
  function ReseedAsWritten(selected: seq<string>, displayed: seq<string>, checked: seq<bool>): seq<string>
    requires |checked| == |displayed|
  {
    var kept := CheckedFoods(displayed, checked);
    if kept != [] then Distinct(kept) else selected
  }

  /** `filterCategoryFoods` of js/categories.js, as written: the checked
      foods on display are passed on as `assignedFoods`. */
  method FilterCategoryFoods(p: CategoryPage, rt: Runtime, texts: seq<string>)
    requires p.checklist.Valid()
    modifies p.checklist
    ensures var c := p.checklist;
      && c.selected == ReseedAsWritten(old(c.selected), old(c.displayed), old(c.checked))
      && c.displayed == FoodList(rt, texts, p.search)
      && c.Valid()
  {
    var filter := p.search;
    var checkedFoods := CheckedFoods(p.checklist.displayed, p.checklist.checked);
    UpdateFoodCheckboxes(p.checklist, rt, texts, checkedFoods, filter);
  }

  /** Whenever a selected food is hidden by the search and some food on
      display is checked, searching again loses the hidden food. */
  lemma {:induction false} ReseedLosesHidden(selected: seq<string>, displayed: seq<string>, checked: seq<bool>, x: string)
    requires |checked| == |displayed|
    requires forall i :: 0 <= i < |displayed| ==> (checked[i] <==> displayed[i] in selected)
    requires x in selected && x !in displayed
    requires exists i :: 0 <= i < |displayed| && checked[i]
    ensures x !in ReseedAsWritten(selected, displayed, checked)
  {
    var p := InSet(selected);
    CheckedFoodsSelected(displayed, checked, selected);
    var i :| 0 <= i < |displayed| && checked[i];
    FilterKeeps(displayed, p, displayed[i]);
    FilterKeeps(displayed, p, x);
  }

  /** For instance: "Apple" and "Bread" selected, a search showing only
      "Apple", checked; searching again keeps "Apple" alone. */
  lemma ReseedExample()
    ensures ReseedAsWritten(["Apple", "Bread"], ["Apple"], [true]) == ["Apple"]
  {
    assert ["Apple"][..0] == [];
  }

  /** `filterCategoryFoods` as its comment intends: the checkboxes are
      rebuilt for the new search and the whole selection is kept. */
  method FilterCategoryFoodsKeepingSelection(p: CategoryPage, rt: Runtime, texts: seq<string>)
    requires p.checklist.Valid()
    modifies p.checklist
    ensures var c := p.checklist;
      && c.selected == old(c.selected)
      && c.displayed == FoodList(rt, texts, p.search)
      && c.Valid()
  {
    var filter := p.search;
    UpdateFoodCheckboxes(p.checklist, rt, texts, [], filter);
  }

  /** `showCategoryModal` of js/categories.js. With a key, given what the
      store returned for it: nothing happens when there is no such category;
      otherwise the form is filled from it and its foods become the
      selection. Without a key the form is reset for a new category. Either
      way the search is cleared and every food is offered. */
  method ShowCategoryModal(p: CategoryPage, rt: Runtime, texts: seq<string>, key: Option<int>, found: Option<Category>)
    modifies p, p.checklist
    ensures key.Some? && found.None? ==> unchanged(p, p.checklist)
    ensures key.Some? && found.Some? ==>
      && p.categoryKey == Some(IntToString(key.value))
      && p.name == found.value.name && p.color == found.value.color
      && p.checklist.selected == Distinct(FoodsOf(found.value))
    ensures key.None? ==>
      && p.categoryKey == None && p.name == "" && p.color == "#FF6B6B" && p.checklist.selected == []
    ensures key.None? || found.Some? ==>
      && p.search == "" && p.checklist.displayed == FoodList(rt, texts, "") && p.checklist.Valid()
      && p.modalOpen
    ensures p.alerts == old(p.alerts) && p.writes == old(p.writes)
    ensures p.showCategoriesInPlot == old(p.showCategoriesInPlot)
  {
    if key.Some? {
      if found.None? {
        return;
      }
      var cat := found.value;
      var keyText := IntToString(key.value);
      OpenForm(p, Some(keyText), cat.name, cat.color);
      ResetChecklist(p.checklist, rt, texts, Distinct(FoodsOf(cat)));
    } else {
      OpenForm(p, None, "", "#FF6B6B");
      ResetChecklist(p.checklist, rt, texts, []);
    }
  }

  /** The form half of `showCategoryModal`: the key (kept as text, like
      `form.dataset.categoryKey`, or removed), the name and colour inputs, the
      cleared search, and the modal shown. The modal is displayed last in the
      source; nothing reads the page in between, so the order is immaterial. */
  method OpenForm(p: CategoryPage, categoryKey: Option<string>, name: string, color: string)
    modifies p
    ensures p.categoryKey == categoryKey && p.name == name && p.color == color
    ensures p.search == "" && p.modalOpen
    ensures p.alerts == old(p.alerts) && p.writes == old(p.writes)
    ensures p.showCategoriesInPlot == old(p.showCategoriesInPlot)
  {
    p.categoryKey := categoryKey;
    p.name := name;
    p.color := color;
    p.search := "";
    p.modalOpen := true;
  }

  /** The checklist half of `showCategoryModal`: `categoryModalSelectedFoods`
      becomes the given set and `updateFoodCheckboxes(..., '')` offers every
      food. */
  method ResetChecklist(c: FoodChecklist, rt: Runtime, texts: seq<string>, selection: seq<string>)
    requires NoDuplicates(selection)
    modifies c
    ensures c.selected == selection
    ensures c.displayed == FoodList(rt, texts, "") && c.Valid()
  {
    c.selected := selection;
    DistinctOfNoDuplicates(selection);
    UpdateFoodCheckboxes(c, rt, texts, selection, "");
  }

  /** What `saveCategoryForm` sends to the store: an update when the form
      holds a (non-empty) key, otherwise an addition. */
  function SaveWrite(categoryKey: Option<string>, c: Category): (w: CategoryWrite)
    ensures w.category == c
    ensures w.UpdateCategory? <==> categoryKey.Some? && categoryKey.value != ""
  {
    if categoryKey.Some? && categoryKey.value != "" then UpdateCategory(ParseInt(categoryKey.value), c)
    else AddCategory(c)
  }

  /** `saveCategoryForm` of js/categories.js: a name that is empty once
      trimmed raises the alert and saves nothing; otherwise the category,
      with the trimmed name and the selection as its foods, is saved and the
      modal closed. */
  method SaveCategoryForm(p: CategoryPage)
    modifies p
    ensures var name := Trim(old(p.name));
      if name == "" then
        && p.alerts == old(p.alerts) + ["Category name is required"]
        && p.writes == old(p.writes) && p.modalOpen == old(p.modalOpen)
      else
        && p.alerts == old(p.alerts)
        && p.writes == old(p.writes) + [SaveWrite(old(p.categoryKey), Category(name, old(p.color), Some(p.checklist.selected), None))]
        && !p.modalOpen
    ensures p.name == old(p.name) && p.categoryKey == old(p.categoryKey)
    ensures p.color == old(p.color) && p.search == old(p.search)
    ensures p.showCategoriesInPlot == old(p.showCategoriesInPlot)
  {
    var name := Trim(p.name);
    var color := p.color;
    if name == "" {
      p.alerts := p.alerts + ["Category name is required"];
      return;
    }
    var foods := p.checklist.selected;
    var category := Category(name, color, Some(foods), None);
    p.writes := p.writes + [SaveWrite(p.categoryKey, category)];
    p.modalOpen := false;
  }

  /** The key `showCategoryModal` stores in the form is read back by
      `saveCategoryForm` as the same number, so an edited category is
      updated in place. */
  lemma EditedKeyReadsBack(key: int, c: Category)
    ensures SaveWrite(Some(IntToString(key)), c) == UpdateCategory(Some(key), c)
  {
    assert IntToString(key) + "" == IntToString(key);
    ParseIntPrefix(key, "");
  }

  /** Reopening a saved category restores its selection exactly. */
  lemma ReopenRestoresSelection(name: string, color: string, selected: seq<string>)
    requires NoDuplicates(selected)
    ensures Distinct(FoodsOf(Category(name, color, Some(selected), None))) == selected
  {
    DistinctOfNoDuplicates(selected);
  }

  /** `togglePlotView` of js/categories.js: 'foods' selects the food view,
      'categories' the category view, anything else changes nothing. */
  method TogglePlotView(p: CategoryPage, viewType: string)
    modifies p
    ensures viewType == "foods" ==> !p.showCategoriesInPlot
    ensures viewType == "categories" ==> p.showCategoriesInPlot
    ensures viewType != "foods" && viewType != "categories" ==> unchanged(p)
    ensures p.writes == old(p.writes) && p.modalOpen == old(p.modalOpen)
    ensures p.name == old(p.name) && p.color == old(p.color) && p.search == old(p.search)
    ensures p.categoryKey == old(p.categoryKey) && p.alerts == old(p.alerts)
  {
    if viewType == "foods" {
      p.showCategoriesInPlot := false;
    } else if viewType == "categories" {
      p.showCategoriesInPlot := true;
    }
  }
}
