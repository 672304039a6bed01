/** js/plot.js: the layout logic behind the chart of entries. Label
    wrapping, the grouping of the day rectangles into columns of overlapping
    hour ranges, the relabelling of foods to category names, hit testing of
    a click, and the sync of rectangles with the legend. Pixel geometry,
    colours and the Chart.js configuration are not part of this model. */
module Plot {
  import opened JsString
  import opened JsArray
  import opened App
  import Categories

  // ------------------------------------------------------------- wrapText

  /** The state of the `forEach` in `wrapText`: the finished lines and the
      line being filled. */
  datatype WrapState = WrapState(lines: seq<string>, line: string)

  /** One word of `wrapText`: the word is added to the current line, after a
      space when the line is not empty, unless the longer line is wider than
      `maxWidth` and the current line is not empty; then the current line is
      finished and the word starts the next one. `measure` is the width
      `ctx.measureText` reports. */
  function WrapStep(measure: string -> real, maxWidth: real, st: WrapState, word: string): WrapState {
    var testLine := if st.line != "" then st.line + " " + word else word;
    if measure(testLine) > maxWidth && st.line != "" then WrapState(st.lines + [st.line], word)
    else WrapState(st.lines, testLine)
  }

  /** The state after the given words, in order. */
  function WrapWords(measure: string -> real, maxWidth: real, words: seq<string>): WrapState {
    if words == [] then WrapState([], "")
    else
      var n := |words| - 1;
      WrapStep(measure, maxWidth, WrapWords(measure, maxWidth, words[..n]), words[n])
  }

  /** The lines `wrapText` returns: the finished lines, then the last line
      when it is not empty. */
  function WrappedLines(measure: string -> real, text: string, maxWidth: real): seq<string> {
    var st := WrapWords(measure, maxWidth, Split(text, ' '));
    if st.line != "" then st.lines + [st.line] else st.lines
  }

  /** `wrapText` of js/plot.js. */
  method WrapText(measure: string -> real, text: string, maxWidth: real) returns (lines: seq<string>)
    ensures lines == WrappedLines(measure, text, maxWidth)
  {
    var words := Split(text, ' ');
    lines := [];
    var line := "";
    var i := 0;
    while i < |words|
      invariant 0 <= i <= |words|
      invariant WrapState(lines, line) == WrapWords(measure, maxWidth, words[..i])
    {
      var word := words[i];
      assert words[..i + 1][..i] == words[..i];
      var testLine := if line != "" then line + " " + word else word;
      if measure(testLine) > maxWidth && line != "" {
        lines := lines + [line];
        line := word;
      } else {
        line := testLine;
      }
      i := i + 1;
    }
    assert words[..|words|] == words;
    if line != "" {
      lines := lines + [line];
    }
  }

  /** A line of more than one word holds a space, since words hold none. */
  predicate FitsIfJoined(measure: string -> real, maxWidth: real, l: string) {
    ' ' in l ==> measure(l) <= maxWidth
  }

  /** Every line is non-empty, and a line of two or more words was measured
      no wider than `maxWidth` when it was formed: only a single word can
      overflow. */
  lemma {:induction false} WrappedLinesFit(measure: string -> real, text: string, maxWidth: real)
    ensures forall l :: l in WrappedLines(measure, text, maxWidth) ==>
      l != "" && FitsIfJoined(measure, maxWidth, l)
  {
    SplitShape(text, ' ');
    WrapWordsFit(measure, maxWidth, Split(text, ' '));
  }

  lemma {:induction false} WrapWordsFit(measure: string -> real, maxWidth: real, words: seq<string>)
    requires forall w :: w in words ==> ' ' !in w
    ensures var st := WrapWords(measure, maxWidth, words);
      && FitsIfJoined(measure, maxWidth, st.line)
      && forall l :: l in st.lines ==> l != "" && FitsIfJoined(measure, maxWidth, l)
  {
    if words != [] {
      var n := |words| - 1;
      assert words[n] in words;
      assert forall w :: w in words[..n] ==> w in words;
      WrapWordsFit(measure, maxWidth, words[..n]);
    }
  }

  /** When no word is empty (no leading, trailing or doubled space), the
      lines joined with spaces give the text back. */
  lemma {:induction false} WrappedLinesJoin(measure: string -> real, text: string, maxWidth: real)
    requires forall w :: w in Split(text, ' ') ==> w != ""
    ensures Join(WrappedLines(measure, text, maxWidth), ' ') == text
  {
    var words := Split(text, ' ');
    SplitShape(text, ' ');
    WrapWordsJoin(measure, maxWidth, words);
  }

  lemma {:induction false} WrapWordsJoin(measure: string -> real, maxWidth: real, words: seq<string>)
    requires forall w :: w in words ==> w != ""
    ensures var st := WrapWords(measure, maxWidth, words);
      if words == [] then st == WrapState([], "")
      else st.line != "" && Join(st.lines + [st.line], ' ') == Join(words, ' ')
  {
    if words != [] {
      var n := |words| - 1;
      var prev := words[..n];
      var word := words[n];
      assert word in words;
      assert forall w :: w in prev ==> w in words;
      WrapWordsJoin(measure, maxWidth, prev);
      assert words == prev + [word];
      if n > 0 {
        JoinAppend(prev, [word], ' ');
        WrapStepJoin(measure, maxWidth, WrapWords(measure, maxWidth, prev), word);
      }
    }
  }

  /** One word more adds a space and the word to the joined lines. */
  lemma {:induction false} WrapStepJoin(measure: string -> real, maxWidth: real, st: WrapState, word: string)
    requires st.line != ""
    ensures var next := WrapStep(measure, maxWidth, st, word);
      next.line != "" || word == ""
    ensures var next := WrapStep(measure, maxWidth, st, word);
      Join(next.lines + [next.line], ' ') == Join(st.lines + [st.line], ' ') + [' '] + word
  {
    var parts := st.lines + [st.line];
    if measure(st.line + " " + word) > maxWidth {
      JoinAppend(parts, [word], ' ');
    } else {
      JoinPadLast(parts, [' '] + word, ' ');
      assert parts[..|parts| - 1] == st.lines;
      assert st.line + " " + word == st.line + ([' '] + word);
    }
  }

  // ------------------------------------------------------ day rectangles

  /** The pixel bounds stored on a rectangle for hit testing. */
  datatype HitBox = HitBox(left: real, right: real, top: real, bottom: real)

  /** One rectangle of the chart: its day column `x`, its hour range, its
      text (the `label` the chart shows), whether the legend hides it, and the hit box set when it was
      last drawn. */
  datatype Rect = Rect(x: int, yStart: real, yEnd: real, text: string, hidden: bool, hitBox: Option<HitBox>)

  /** The `groups` object of `afterDatasetsDraw`, built from the rectangles
      in order: hidden ones are skipped, the others pushed onto the list of
      their day. */
  function DayGroups(rects: seq<Rect>): map<int, seq<Rect>> {
    if rects == [] then map[]
    else
      var n := |rects| - 1;
      var groups := DayGroups(rects[..n]);
      var r := rects[n];
      if r.hidden then groups
      else groups[r.x := (if r.x in groups then groups[r.x] else []) + [r]]
  }

  /** The grouping loop of `afterDatasetsDraw`. */
  method GroupByDay(rects: seq<Rect>) returns (groups: map<int, seq<Rect>>)
    ensures groups == DayGroups(rects)
  {
    groups := map[];
    var i := 0;
    while i < |rects|
      invariant 0 <= i <= |rects|
      invariant groups == DayGroups(rects[..i])
    {
      var r := rects[i];
      assert rects[..i + 1][..i] == rects[..i];
      i := i + 1;
      if r.hidden {
        continue;
      }
      if r.x !in groups {
        groups := groups[r.x := []];
      }
      groups := groups[r.x := groups[r.x] + [r]];
    }
    assert rects[..|rects|] == rects;
  }

  /** Visible and in day column `x`. */
  function OnDay(x: int): Rect -> bool {
    (r: Rect) => !r.hidden && r.x == x
  }

  /** The list of a day holds exactly the visible rectangles of that day, in
      their order; a day without visible rectangles has no list. Hidden
      rectangles therefore take no part in the layout. */
  lemma {:induction false} DayGroupsAreVisibleRects(rects: seq<Rect>)
    ensures var groups := DayGroups(rects);
      forall x :: if x in groups then groups[x] == Filter(rects, OnDay(x)) && groups[x] != []
                  else Filter(rects, OnDay(x)) == []
  {
    if rects != [] {
      var n := |rects| - 1;
      DayGroupsAreVisibleRects(rects[..n]);
    }
  }

  // ------------------------------------------------------ hour overlap

  /** Two hour ranges overlap unless one ends where or before the other
      starts. */
  predicate Overlaps(r: Rect, other: Rect) {
    !(r.yEnd <= other.yStart || r.yStart >= other.yEnd)
  }

  /** `yg.some(other => ...)`: some rectangle of the group overlaps `r`. */
  predicate Touches(yg: seq<Rect>, r: Rect) {
    exists i :: 0 <= i < |yg| && Overlaps(r, yg[i])
  }

  /** The index of the first group from `k` on that `r` touches, or the
      number of groups when there is none. */
  function FirstTouching(groups: seq<seq<Rect>>, r: Rect, k: nat): nat
    requires k <= |groups|
    decreases |groups| - k
  {
    if k == |groups| then k
    else if Touches(groups[k], r) then k
    else FirstTouching(groups, r, k + 1)
  }

  /** What the body of `group.forEach` does with `r`: push it onto the
      first group it touches, or open a new group with it. */
  function Place(groups: seq<seq<Rect>>, r: Rect): seq<seq<Rect>> {
    var j := FirstTouching(groups, r, 0);
    if j < |groups| then groups[j := groups[j] + [r]] else groups + [[r]]
  }

  /** The `yGroups` built from the rectangles of one day, in order. */
  function OverlapGroups(rects: seq<Rect>): seq<seq<Rect>> {
    if rects == [] then []
    else
      var n := |rects| - 1;
      Place(OverlapGroups(rects[..n]), rects[n])
  }

  /** The nested loop of `afterDatasetsDraw` that builds `yGroups`. */
  method YGroups(group: seq<Rect>) returns (yGroups: seq<seq<Rect>>)
    ensures yGroups == OverlapGroups(group)
  {
    yGroups := [];
    var i := 0;
    while i < |group|
      invariant 0 <= i <= |group|
      invariant yGroups == OverlapGroups(group[..i])
    {
      var r := group[i];
      assert group[..i + 1][..i] == group[..i];
      ghost var before := yGroups;
      var found := false;
      var k := 0;
      while k < |yGroups|
        invariant 0 <= k <= |yGroups| && yGroups == before && !found
        invariant FirstTouching(yGroups, r, k) == FirstTouching(yGroups, r, 0)
      {
        if Touches(yGroups[k], r) {
          yGroups := yGroups[k := yGroups[k] + [r]];
          found := true;
          break;
        }
        k := k + 1;
      }
      if !found {
        yGroups := yGroups + [[r]];
      }
      i := i + 1;
    }
    assert group[..|group|] == group;
  }

  /** `FirstTouching` finds the first group `r` touches: none before it does,
      and it does unless it is past the last group. */
  lemma {:induction false} FirstTouchingIsFirst(groups: seq<seq<Rect>>, r: Rect, k: nat)
    requires k <= |groups|
    ensures var j := FirstTouching(groups, r, k);
      && k <= j <= |groups|
      && (j < |groups| ==> Touches(groups[j], r))
      && forall m :: k <= m < j ==> !Touches(groups[m], r)
    decreases |groups| - k
  {
    if k < |groups| && !Touches(groups[k], r) {
      FirstTouchingIsFirst(groups, r, k + 1);
    }
  }

  /** A rectangle joins the first group holding a rectangle that overlaps
      it, and no other group changes; when no group does, it opens a new
      group of its own at the end. */
  lemma {:induction false} PlaceJoinsFirstOverlap(groups: seq<seq<Rect>>, r: Rect)
    ensures var placed := Place(groups, r);
      if exists j :: 0 <= j < |groups| && Touches(groups[j], r) then
        exists j :: 0 <= j < |groups| && Touches(groups[j], r)
          && (forall m :: 0 <= m < j ==> !Touches(groups[m], r))
          && placed == groups[j := groups[j] + [r]]
      else
        placed == groups + [[r]]
  {
    FirstTouchingIsFirst(groups, r, 0);
  }

  /** All groups one after the other. */
  function Flatten(groups: seq<seq<Rect>>): seq<Rect> {
    if groups == [] then []
    else
      var n := |groups| - 1;
      Flatten(groups[..n]) + groups[n]
  }

  lemma {:induction false} FlattenPush(groups: seq<seq<Rect>>, j: nat, r: Rect)
    requires j < |groups|
    ensures multiset(Flatten(groups[j := groups[j] + [r]])) == multiset(Flatten(groups)) + multiset{r}
  {
    var n := |groups| - 1;
    var pushed := groups[j := groups[j] + [r]];
    assert Flatten(pushed) == Flatten(pushed[..n]) + pushed[n];
    if j < n {
      assert pushed[..n] == groups[..n][j := groups[j] + [r]] && pushed[n] == groups[n];
      FlattenPush(groups[..n], j, r);
    } else {
      assert pushed[..n] == groups[..n] && pushed[n] == groups[n] + [r];
    }
  }

  /** Every rectangle of the day lands in exactly one group: together the
      groups hold the rectangles with their multiplicities. */
  lemma {:induction false} OverlapGroupsPartition(rects: seq<Rect>)
    ensures multiset(Flatten(OverlapGroups(rects))) == multiset(rects)
  {
    if rects != [] {
      var n := |rects| - 1;
      var groups := OverlapGroups(rects[..n]);
      OverlapGroupsPartition(rects[..n]);
      assert rects == rects[..n] + [rects[n]];
      var j := FirstTouching(groups, rects[n], 0);
      if j < |groups| {
        FlattenPush(groups, j, rects[n]);
      } else {
        assert (groups + [[rects[n]]])[..|groups|] == groups;
      }
    }
  }

  /** A group is never empty, keeps the input order (it is a subsequence
      of the rectangles), and each member after the first overlaps some
      member before it. */
  ghost predicate WellGrouped(g: seq<Rect>, rects: seq<Rect>) {
    && g != []
    && IsSubsequence(g, rects)
    && forall i :: 0 < i < |g| ==> Touches(g[..i], g[i])
  }

  /** Every group built from the rectangles of a day is well grouped. */
  lemma {:induction false} OverlapGroupsShape(rects: seq<Rect>)
    ensures forall m :: 0 <= m < |OverlapGroups(rects)| ==> WellGrouped(OverlapGroups(rects)[m], rects)
  {
    if rects != [] {
      var n := |rects| - 1;
      var prev := rects[..n];
      OverlapGroupsShape(prev);
      PlaceKeepsShape(OverlapGroups(prev), prev, rects[n]);
      assert rects == prev + [rects[n]];
    }
  }

  lemma {:induction false} PlaceKeepsShape(groups: seq<seq<Rect>>, s: seq<Rect>, r: Rect)
    requires forall m :: 0 <= m < |groups| ==> WellGrouped(groups[m], s)
    ensures var placed := Place(groups, r);
      forall m :: 0 <= m < |placed| ==> WellGrouped(placed[m], s + [r])
  {
    FirstTouchingIsFirst(groups, r, 0);
    var j := FirstTouching(groups, r, 0);
    var placed := Place(groups, r);
    forall m | 0 <= m < |placed| ensures WellGrouped(placed[m], s + [r]) {
      if m == j && j < |groups| {
        PushKeepsShape(groups[j], s, r);
      } else if m == |groups| {
        NewGroupShape(s, r);
      } else {
        SkipKeepsShape(groups[m], s, r);
      }
    }
  }

  lemma {:induction false} PushKeepsShape(g: seq<Rect>, s: seq<Rect>, r: Rect)
    requires WellGrouped(g, s) && Touches(g, r)
    ensures WellGrouped(g + [r], s + [r])
  {
    SubsequenceExtend(g, s, r);
    var h := g + [r];
    forall i | 0 < i < |h| ensures Touches(h[..i], h[i]) {
      if i < |g| {
        assert h[..i] == g[..i] && h[i] == g[i];
      } else {
        assert h[..i] == g;
      }
    }
  }

  lemma {:induction false} SkipKeepsShape(g: seq<Rect>, s: seq<Rect>, r: Rect)
    requires WellGrouped(g, s)
    ensures WellGrouped(g, s + [r])
  {
    SubsequenceSkip(g, s, r);
  }

  lemma {:induction false} NewGroupShape(s: seq<Rect>, r: Rect)
    ensures WellGrouped([r], s + [r])
  {
    SubsequenceOne(s, r);
  }

  lemma {:induction false} SubsequenceExtend(g: seq<Rect>, s: seq<Rect>, r: Rect)
    requires IsSubsequence(g, s)
    ensures IsSubsequence(g + [r], s + [r])
  {
    var idx: seq<nat> :| && |idx| == |g|
      && (forall k :: 0 <= k < |idx| ==> idx[k] < |s| && g[k] == s[idx[k]])
      && (forall k, l :: 0 <= k < l < |idx| ==> idx[k] < idx[l]);
    var idx2 := idx + [|s|];
    assert forall k :: 0 <= k < |idx2| ==> idx2[k] < |s + [r]| && (g + [r])[k] == (s + [r])[idx2[k]];
  }

  lemma {:induction false} SubsequenceSkip(g: seq<Rect>, s: seq<Rect>, r: Rect)
    requires IsSubsequence(g, s)
    ensures IsSubsequence(g, s + [r])
  {
    var idx: seq<nat> :| && |idx| == |g|
      && (forall k :: 0 <= k < |idx| ==> idx[k] < |s| && g[k] == s[idx[k]])
      && (forall k, l :: 0 <= k < l < |idx| ==> idx[k] < idx[l]);
    assert forall k :: 0 <= k < |idx| ==> idx[k] < |s + [r]| && g[k] == (s + [r])[idx[k]];
  }

  lemma {:induction false} SubsequenceOne(s: seq<Rect>, r: Rect)
    ensures IsSubsequence([r], s + [r])
  {
    var idx: seq<nat> := [|s|];
    assert [r][0] == (s + [r])[idx[0]];
  }

  // ------------------------------------------------------- category mode

  /** The value `foodToCategoryMap` holds for a food; the store key it also
      holds is never read. */
  datatype CategoryLabel = CategoryLabel(name: string, color: string)

  function LabelOf(c: Categories.Category): CategoryLabel {
    CategoryLabel(c.name, c.color)
  }

  /** `foods.forEach(food => map[food] = label)`. */
  function AssignFoods(m: map<string, CategoryLabel>, foods: seq<string>, catLabel: CategoryLabel): map<string, CategoryLabel> {
    if foods == [] then m
    else
      var n := |foods| - 1;
      AssignFoods(m, foods[..n], catLabel)[foods[n] := catLabel]
  }

  /** `foodToCategoryMap` after the categories, in order, each assigning its
      foods (`cat.foods || []`). */
  function FoodToCategory(cats: seq<Categories.Category>): map<string, CategoryLabel> {
    if cats == [] then map[]
    else
      var n := |cats| - 1;
      AssignFoods(FoodToCategory(cats[..n]), Categories.FoodsOf(cats[n]), LabelOf(cats[n]))
  }

  /** The nested `forEach` of `drawPlot` that fills `foodToCategoryMap`. */
  method BuildFoodToCategory(cats: seq<Categories.Category>) returns (m: map<string, CategoryLabel>)
    ensures m == FoodToCategory(cats)
  {
    m := map[];
    var i := 0;
    while i < |cats|
      invariant 0 <= i <= |cats|
      invariant m == FoodToCategory(cats[..i])
    {
      var cat := cats[i];
      assert cats[..i + 1][..i] == cats[..i];
      var foods := Categories.FoodsOf(cat);
      var catLabel := LabelOf(cat);
      ghost var base := m;
      var k := 0;
      while k < |foods|
        invariant 0 <= k <= |foods|
        invariant m == AssignFoods(base, foods[..k], catLabel)
      {
        assert foods[..k + 1][..k] == foods[..k];
        m := m[foods[k] := catLabel];
        k := k + 1;
      }
      assert foods[..|foods|] == foods;
      i := i + 1;
    }
    assert cats[..|cats|] == cats;
  }

  /** The last category whose foods hold `food`, by exact match. */
  function LastCategoryWith(cats: seq<Categories.Category>, food: string): (r: Option<nat>)
    ensures r.Some? ==> r.value < |cats|
  {
    if cats == [] then None
    else
      var n := |cats| - 1;
      if food in Categories.FoodsOf(cats[n]) then Some(n) else LastCategoryWith(cats[..n], food)
  }

  lemma {:induction false} LastCategoryWithIsLast(cats: seq<Categories.Category>, food: string)
    ensures match LastCategoryWith(cats, food)
      case Some(i) =>
        && i < |cats| && food in Categories.FoodsOf(cats[i])
        && forall k :: i < k < |cats| ==> food !in Categories.FoodsOf(cats[k])
      case None => forall k :: 0 <= k < |cats| ==> food !in Categories.FoodsOf(cats[k])
  {
    if cats != [] {
      var n := |cats| - 1;
      LastCategoryWithIsLast(cats[..n], food);
    }
  }

  lemma {:induction false} AssignFoodsLookup(m: map<string, CategoryLabel>, foods: seq<string>, catLabel: CategoryLabel, food: string)
    ensures var r := AssignFoods(m, foods, catLabel);
      && (food in r <==> food in foods || food in m)
      && (food in foods ==> r[food] == catLabel)
      && (food !in foods && food in m ==> r[food] == m[food])
  {
    if foods != [] {
      var n := |foods| - 1;
      AssignFoodsLookup(m, foods[..n], catLabel, food);
      assert foods == foods[..n] + [foods[n]];
    }
  }

  /** A food maps to the name and colour of the last category listing it,
      and a food no category lists has no entry. */
  lemma {:induction false} FoodToCategoryLastWins(cats: seq<Categories.Category>, food: string)
    ensures var m := FoodToCategory(cats);
      match LastCategoryWith(cats, food)
      case Some(i) => food in m && m[food] == LabelOf(cats[i])
      case None => food !in m
  {
    if cats != [] {
      var n := |cats| - 1;
      FoodToCategoryLastWins(cats[..n], food);
      AssignFoodsLookup(FoodToCategory(cats[..n]), Categories.FoodsOf(cats[n]), LabelOf(cats[n]), food);
    }
  }

  /** An item as the chart draws it: its text (perhaps a category name), its
      time, and the category colour, `null` as `None`. */
  datatype PlotItem<T> = PlotItem(text: string, time: T, categoryColor: Option<string>)

  /** The `map` callback of category mode: `map[text]?.name || text`, and
      `map[text]?.color || null`. */
  function Relabel<T>(m: map<string, CategoryLabel>, item: Item<T>): PlotItem<T> {
    var text := if item.text in m && m[item.text].name != "" then m[item.text].name else item.text;
    var color := if item.text in m && m[item.text].color != "" then Some(m[item.text].color) else None;
    PlotItem(text, item.time, color)
  }

  /** `plotData` of `drawPlot`: relabelled in category mode (the flag is on
      and there is a category), otherwise the items as they are. */
  function PlotData<T>(showCategories: bool, cats: seq<Categories.Category>, data: seq<Item<T>>): seq<PlotItem<T>> {
    if showCategories && |cats| > 0 then
      var m := FoodToCategory(cats);
      Map(data, (item: Item<T>) => Relabel(m, item))
    else
      Map(data, (item: Item<T>) => PlotItem(item.text, item.time, None))
  }

  /** The label an item gets in category mode: the name of the last category
      listing its text, unless there is none or that name is empty. */
  function CategoryText(cats: seq<Categories.Category>, text: string): string {
    match LastCategoryWith(cats, text)
    case Some(i) => if i < |cats| && cats[i].name != "" then cats[i].name else text
    case None => text
  }

  /** In category mode each item is drawn under the name of the last
      category whose foods hold its text, and items in no category keep
      their text; otherwise every item keeps its text. Times are kept. */
  lemma {:induction false} PlotDataLabels<T>(showCategories: bool, cats: seq<Categories.Category>, data: seq<Item<T>>)
    ensures var r := PlotData(showCategories, cats, data);
      && |r| == |data|
      && forall i :: 0 <= i < |data| ==>
        && r[i].time == data[i].time
        && r[i].text == (if showCategories && |cats| > 0 then CategoryText(cats, data[i].text) else data[i].text)
  {
    if showCategories && |cats| > 0 {
      forall i | 0 <= i < |data|
        ensures PlotData(showCategories, cats, data)[i].text == CategoryText(cats, data[i].text)
      {
        FoodToCategoryLastWins(cats, data[i].text);
        LastCategoryWithIsLast(cats, data[i].text);
      }
    }
  }

  // ------------------------------------------------------------ hit test

  /** Inclusive bounds. */
  predicate InBox(b: HitBox, x: real, y: real) {
    x >= b.left && x <= b.right && y >= b.top && y <= b.bottom
  }

  /** A rectangle a click at (x, y) can select: not hidden, with a hit box
      that contains the point. */
  predicate Selectable(r: Rect, x: real, y: real) {
    !r.hidden && r.hitBox.Some? && InBox(r.hitBox.value, x, y)
  }

  /** The loop of the click (and tap) handler of js/plot.js: the index of
      the rectangle it selects, whose label then goes to the table search. */
  method HitTest(rects: seq<Rect>, x: real, y: real) returns (hit: Option<nat>)
    ensures hit.Some? ==>
      && hit.value < |rects| && Selectable(rects[hit.value], x, y)
      && forall k :: 0 <= k < hit.value ==> !Selectable(rects[k], x, y)
    ensures hit.None? ==> forall k :: 0 <= k < |rects| ==> !Selectable(rects[k], x, y)
  {
    hit := None;
    var i := 0;
    while i < |rects|
      invariant 0 <= i <= |rects|
      invariant forall k :: 0 <= k < i ==> !Selectable(rects[k], x, y)
    {
      var r := rects[i];
      if r.hidden || r.hitBox.None? {
        i := i + 1;
        continue;
      }
      var box := r.hitBox.value;
      if x >= box.left && x <= box.right && y >= box.top && y <= box.bottom {
        hit := Some(i);
        break;
      }
      i := i + 1;
    }
  }

  // --------------------------------------------------------- legend sync

  /** The `forEach` of the legend button: a rectangle with the dataset's
      label is hidden exactly when the dataset is not visible. */
  function SyncOne(r: Rect, datasetLabel: string, visible: bool): Rect {
    if r.text == datasetLabel then r.(hidden := !visible) else r
  }

  /** The rectangles after a legend toggle. */
  function Synced(rects: seq<Rect>, datasetLabel: string, visible: bool): seq<Rect> {
    Map(rects, (r: Rect) => SyncOne(r, datasetLabel, visible))
  }

  /** The sync loop of `renderLegend`, updating `myChart.$rects` in place. */
  method SyncLegend(rects: array<Rect>, datasetLabel: string, visible: bool)
    modifies rects
    ensures rects[..] == Synced(old(rects[..]), datasetLabel, visible)
  {
    var i := 0;
    while i < rects.Length
      invariant 0 <= i <= rects.Length
      invariant forall k :: 0 <= k < i ==> rects[k] == SyncOne(old(rects[k]), datasetLabel, visible)
      invariant forall k :: i <= k < rects.Length ==> rects[k] == old(rects[k])
    {
      if rects[i].text == datasetLabel {
        rects[i] := rects[i].(hidden := !visible);
      }
      i := i + 1;
    }
  }

  /** Only rectangles with the dataset's label change, and only in being
      hidden; each of them ends up hidden exactly when the dataset is not
      visible. */
  lemma {:induction false} SyncedChangesOnlyLabel(rects: seq<Rect>, datasetLabel: string, visible: bool)
    ensures var r := Synced(rects, datasetLabel, visible);
      && |r| == |rects|
      && forall i :: 0 <= i < |rects| ==>
        && r[i].(hidden := rects[i].hidden) == rects[i]
        && (r[i] != rects[i] ==> rects[i].text == datasetLabel)
        && (rects[i].text == datasetLabel ==> r[i].hidden == !visible)
  {
  }

  /** A second sync with the same visibility changes nothing. */
  lemma {:induction false} SyncedIdempotent(rects: seq<Rect>, datasetLabel: string, visible: bool)
    ensures Synced(Synced(rects, datasetLabel, visible), datasetLabel, visible) == Synced(rects, datasetLabel, visible)
  {
  }

  /** After a dataset is switched off, no click selects a rectangle with its
      label. */
  lemma {:induction false} HiddenLabelNotSelectable(rects: seq<Rect>, datasetLabel: string, x: real, y: real)
    ensures var r := Synced(rects, datasetLabel, false);
      forall i :: 0 <= i < |r| && Selectable(r[i], x, y) ==> r[i].text != datasetLabel
  {
  }
}
