/** js/correlation.js: the correlation engine, which relates every item
    logged near a chosen target (an item or a category of items) to the
    occurrence of the target closest in time, and the helpers around it: the
    `type:value` selector, the clamped look-back timeframe and its label, and
    the text of a timing difference. Times are integer milliseconds. */
module Correlation {
  import opened JsString
  import opened JsArray
  import opened JsObject
  import opened App
  import Categories

  // -------------------------------------------------------------- selector

  /** `category:${cat.key}`, the option value of a category. */
  function EncodeCategory(key: int): string {
    "category" + ":" + IntToString(key)
  }

  /** `item:${item}`, the option value of an item text. */
  function EncodeItem(item: string): string {
    "item" + ":" + item
  }

  /** What `analyzeCorrelation` reads from the option value: its type and
      its value, `None` standing for `undefined`. */
  datatype Selection = Selection(targetType: string, targetValue: Option<string>)

  /** `const [type, value] = select.value.split(':')`: the value is only the
      second piece, so anything after a second colon is lost. */
  function DecodeAsWritten(v: string): Selection {
    var parts := Split(v, ':');
    Selection(parts[0], if |parts| > 1 then Some(parts[1]) else None)
  }

  /** The decoding the encoding calls for: the type up to the first colon,
      the value everything after it. */
  function Decode(v: string): Selection {
    var parts := Split(v, ':');
    Selection(parts[0], if |parts| > 1 then Some(Join(parts[1..], ':')) else None)
  }

  /** Splitting after a colon-free prefix. */
  lemma {:induction false} SplitAfterType(t: string, value: string)
    requires ':' !in t
    ensures Split(t + ":" + value, ':') == [t] + Split(value, ':')
  {
    SplitAfterPiece(t, value, ':');
    assert t + ":" + value == t + [':'] + value;
  }

  /** Every item text decodes back to itself. */
  lemma {:induction false} DecodeEncodeItem(item: string)
    ensures Decode(EncodeItem(item)) == Selection("item", Some(item))
  {
    SplitAfterType("item", item);
    SplitShape(item, ':');
    var parts := Split(EncodeItem(item), ':');
    assert parts[1..] == Split(item, ':');
  }

  /** Every category key decodes back to the text `parseInt` reads it from. */
  lemma {:induction false} DecodeEncodeCategory(key: int)
    ensures Decode(EncodeCategory(key)) == Selection("category", Some(IntToString(key)))
    ensures DecodeAsWritten(EncodeCategory(key)) == Selection("category", Some(IntToString(key)))
    ensures ParseInt(IntToString(key)) == Some(key)
  {
    var k := IntToString(key);
    assert ':' !in k by {
      if key < 0 {
        NatToStringNumeral(-key);
        assert k == "-" + NatToString(-key);
      } else {
        NatToStringNumeral(key);
      }
    }
    SplitAfterType("category", k);
    SplitNoSeparator(k, ':');
    assert Split(EncodeCategory(key), ':') == ["category", k];
    ParseIntPrefix(key, "");
    assert k + "" == k;
  }

  /** As written, an item text decodes back to itself exactly when it holds
      no colon; otherwise only its part before the first colon survives. */
  lemma {:induction false} DecodeAsWrittenItem(item: string)
    ensures DecodeAsWritten(EncodeItem(item)).targetType == "item"
    ensures DecodeAsWritten(EncodeItem(item)).targetValue == Some(item) <==> ':' !in item
    ensures DecodeAsWritten(EncodeItem(item)).targetValue == Some(Split(item, ':')[0])
  {
    SplitAfterType("item", item);
    SplitShape(item, ':');
    var first := Split(item, ':')[0];
    assert first in Split(item, ':');
    if ':' !in item {
      SplitNoSeparator(item, ':');
    } else {
      assert ':' !in first;
    }
  }

  /** As written, an item text with a colon is analysed as its part before
      the first colon, while the intended decoding keeps the whole text. */
  lemma {:induction false} DecodeAsWrittenCutsAtColon(t: string, rest: string)
    requires ':' !in t
    ensures DecodeAsWritten(EncodeItem(t + ":" + rest)).targetValue == Some(t)
    ensures Decode(EncodeItem(t + ":" + rest)).targetValue == Some(t + ":" + rest)
  {
    DecodeAsWrittenItem(t + ":" + rest);
    DecodeEncodeItem(t + ":" + rest);
    SplitAfterType(t, rest);
  }

  /** The item "Tea: green" is analysed as "Tea". */
  lemma DecodeAsWrittenLosesText()
    ensures DecodeAsWritten(EncodeItem("Tea: green")).targetValue == Some("Tea")
    ensures Decode(EncodeItem("Tea: green")).targetValue == Some("Tea: green")
  {
    DecodeAsWrittenCutsAtColon("Tea", " green");
    assert "Tea" + ":" + " green" == "Tea: green";
  }

  // ------------------------------------------------------------- timeframe

  /** `Math.max(1, Math.min(720, parseInt(input) || 24))`: NaN and 0 are
      falsy and give 24 before the clamp. */
  function ClampTimeframe(input: string): (hours: int)
    ensures 1 <= hours <= 720
  {
    var parsed := ParseInt(input);
    var value := if parsed.Some? && parsed.value != 0 then parsed.value else 24;
    if value > 720 then 720 else if value < 1 then 1 else value
  }

  /** The clamp gives 24 for an unreadable or zero input, 1 for a negative
      one, 720 for one above 720, and the number itself otherwise. */
  lemma ClampTimeframeCases(input: string)
    ensures ParseInt(input).None? || ParseInt(input) == Some(0) ==> ClampTimeframe(input) == 24
    ensures ParseInt(input).Some? && ParseInt(input).value < 0 ==> ClampTimeframe(input) == 1
    ensures ParseInt(input).Some? && ParseInt(input).value > 720 ==> ClampTimeframe(input) == 720
    ensures ParseInt(input).Some? && 1 <= ParseInt(input).value <= 720 ==>
      ClampTimeframe(input) == ParseInt(input).value
  {
  }

  /** Clamping a clamped value printed back changes nothing. */
  lemma ClampTimeframeIdempotent(input: string)
    ensures ClampTimeframe(IntToString(ClampTimeframe(input))) == ClampTimeframe(input)
  {
    var h := ClampTimeframe(input);
    ParseIntPrefix(h, "");
    assert IntToString(h) + "" == IntToString(h);
  }

  /** The slider and the number field of the correlation panel, both holding
      text as input elements do. */
  class TimeframeInputs {
    var slider: string
    var input: string

    constructor (slider: string, input: string)
      ensures this.slider == slider && this.input == input
    {
      this.slider := slider;
      this.input := input;
    }
  }

  /** `syncTimeframeInputs` of js/correlation.js: from the slider the field
      takes the slider's value; otherwise the field is clamped and both show
      the clamped number. */
  method SyncTimeframeInputs(t: TimeframeInputs, source: string)
    modifies t
    ensures source == "slider" ==> t.input == old(t.slider) && t.slider == old(t.slider)
    ensures source != "slider" ==>
      var h := ClampTimeframe(old(t.input));
      t.input == IntToString(h) && t.slider == IntToString(h)
  {
    if source == "slider" {
      t.input := t.slider;
    } else {
      var parsed := ParseInt(t.input);
      var value := if parsed.Some? && parsed.value != 0 then parsed.value else 24;
      value := if 720 < value then 720 else value;
      value := if 1 < value then value else 1;
      t.input := IntToString(value);
      t.slider := IntToString(value);
    }
  }

  /** The timeframe text of `displayCorrelationResults`. */
  function TimeframeLabel(hours: int): string {
    if hours < 24 then
      if hours == 1 then "1 hour" else IntToString(hours) + " hours"
    else if hours % 24 == 0 then
      var days := hours / 24;
      if days == 1 then "1 day" else IntToString(days) + " days"
    else
      IntToString(hours / 24) + "d " + IntToString(hours % 24) + "h"
  }

  /** Below a day the label reads back as the number of hours, followed by
      the unit. */
  lemma {:induction false} TimeframeLabelHours(hours: int)
    requires hours < 24
    ensures ParseInt(TimeframeLabel(hours)) == Some(hours)
    ensures TimeframeLabel(hours)[|IntToString(hours)|..] == (if hours == 1 then " hour" else " hours")
  {
    if hours == 1 {
      ReadsBackBefore(1, " hour");
      assert IntToString(1) == "1";
      assert TimeframeLabel(hours) == IntToString(1) + " hour";
    } else {
      ReadsBackBefore(hours, " hours");
    }
  }

  /** A whole number of days reads back as that number of days. */
  lemma {:induction false} TimeframeLabelDays(hours: int)
    requires hours >= 24 && hours % 24 == 0
    ensures ParseInt(TimeframeLabel(hours)) == Some(hours / 24)
    ensures TimeframeLabel(hours)[|IntToString(hours / 24)|..] == (if hours == 24 then " day" else " days")
  {
    if hours == 24 {
      ReadsBackBefore(1, " day");
      assert IntToString(1) == "1";
      assert TimeframeLabel(hours) == IntToString(1) + " day";
    } else {
      ReadsBackBefore(hours / 24, " days");
    }
  }

  /** Otherwise the label reads back as the days, then after "d " the hours
      left over, and it ends with "h". */
  lemma {:induction false} TimeframeLabelDaysHours(hours: int)
    requires hours >= 24 && hours % 24 != 0
    ensures var text := TimeframeLabel(hours);
      var d := IntToString(hours / 24);
      && ParseInt(text) == Some(hours / 24)
      && text[|d|..|d| + 2] == "d "
      && ParseInt(text[|d| + 2..]) == Some(hours % 24)
      && text[|text| - 1] == 'h'
  {
    DaysHoursReadsBack(hours / 24, hours % 24);
  }

  /** `${d}d ${h}h` reads back as `d`, then after "d " as `h`, and ends with "h". */
  lemma {:induction false} DaysHoursReadsBack(days: int, hours: int)
    ensures var text := IntToString(days) + "d " + IntToString(hours) + "h";
      var d := IntToString(days);
      && ParseInt(text) == Some(days)
      && text[|d|..|d| + 2] == "d "
      && ParseInt(text[|d| + 2..]) == Some(hours)
      && text[|text| - 1] == 'h'
  {
    var d := IntToString(days);
    var h := IntToString(hours);
    DaysPartReadsBack(d, days, h);
    HoursPartReadsBack(d, h, hours);
  }

  /** The days in front of "d " read back. */
  lemma {:induction false} DaysPartReadsBack(d: string, days: int, h: string)
    requires d == IntToString(days)
    ensures ParseInt(d + "d " + h + "h") == Some(days)
    ensures (d + "d " + h + "h")[|d|..|d| + 2] == "d "
  {
    var u := "d " + h + "h";
    assert EndsNumeral(u);
    ReadsBackBefore(days, u);
    assert d + "d " + h + "h" == d + u;
  }

  /** The hours after "d " read back, and the text ends with "h". */
  lemma {:induction false} HoursPartReadsBack(d: string, h: string, hours: int)
    requires h == IntToString(hours)
    ensures ParseInt((d + "d " + h + "h")[|d| + 2..]) == Some(hours)
    ensures var text := d + "d " + h + "h"; text[|text| - 1] == 'h'
  {
    ReadsBackBefore(hours, "h");
    assert (d + "d " + h + "h")[|d| + 2..] == h + "h";
  }

  /** A printed number followed by a unit reads back, and the unit follows it. */
  lemma {:induction false} ReadsBackBefore(n: int, unit: string)
    requires EndsNumeral(unit)
    ensures ParseInt(IntToString(n) + unit) == Some(n)
    ensures (IntToString(n) + unit)[|IntToString(n)|..] == unit
  {
    ParseIntPrefix(n, unit);
  }

  // ------------------------------------------------------ timing difference

  /** `${v}${unit}` with an "s" when `v` exceeds 1. */
  function Counted(v: nat, unit: string): string {
    IntToString(v) + unit + (if v > 1 then "s" else "")
  }

  /** The `parts` of `formatTimingDifference`: the non-zero days, hours and
      minutes, in that order; minutes never take an "s". */
  function TimingParts(minutes: nat): seq<string> {
    var days := minutes / (24 * 60);
    var hours := (minutes % (24 * 60)) / 60;
    var mins := minutes % 60;
    (if days > 0 then [Counted(days, " day")] else [])
    + (if hours > 0 then [Counted(hours, " hour")] else [])
    + (if mins > 0 then [IntToString(mins) + " min"] else [])
  }

  /** The text of `formatTimingDifference`. */
  function TimingText(minutes: nat): string {
    var parts := TimingParts(minutes);
    if |parts| > 0 then Join(parts, ' ') else "0 min"
  }

  /** `formatTimingDifference` of js/correlation.js, building `parts` by push. */
  method FormatTimingDifference(minutes: nat) returns (text: string)
    ensures text == TimingText(minutes)
  {
    var days := minutes / (24 * 60);
    var hours := (minutes % (24 * 60)) / 60;
    var mins := minutes % 60;
    var parts: seq<string> := [];
    if days > 0 {
      parts := parts + [IntToString(days) + " day" + (if days > 1 then "s" else "")];
    }
    if hours > 0 {
      parts := parts + [IntToString(hours) + " hour" + (if hours > 1 then "s" else "")];
    }
    if mins > 0 {
      parts := parts + [IntToString(mins) + " min"];
    }
    assert parts == TimingParts(minutes);
    text := if |parts| > 0 then Join(parts, ' ') else "0 min";
  }

  /** The days, the hours below 24 and the minutes below 60 add up to the
      whole, and there is one part for each that is non-zero. */
  lemma {:induction false} TimingPartsSplit(minutes: nat)
    ensures var days := minutes / 1440;
      var hours := (minutes % 1440) / 60;
      var mins := minutes % 60;
      && days * 1440 + hours * 60 + mins == minutes
      && hours < 24 && mins < 60
      && |TimingParts(minutes)| == (if days > 0 then 1 else 0) + (if hours > 0 then 1 else 0) + (if mins > 0 then 1 else 0)
  {
  }

  /** The first part reads back as the largest non-zero unit. */
  lemma {:induction false} TimingPartsFirst(minutes: nat)
    requires minutes > 0
    ensures var days := minutes / 1440;
      var hours := (minutes % 1440) / 60;
      |TimingParts(minutes)| > 0 &&
      ParseInt(TimingParts(minutes)[0]) == Some(if days > 0 then days else if hours > 0 then hours else minutes % 60)
  {
    var days := minutes / 1440;
    var hours := (minutes % 1440) / 60;
    var mins := minutes % 60;
    TimingPartsSplit(minutes);
    if days > 0 {
      ReadsBackBefore(days, " day" + (if days > 1 then "s" else ""));
      assert TimingParts(minutes)[0] == IntToString(days) + (" day" + (if days > 1 then "s" else ""));
    } else if hours > 0 {
      ReadsBackBefore(hours, " hour" + (if hours > 1 then "s" else ""));
      assert TimingParts(minutes)[0] == IntToString(hours) + (" hour" + (if hours > 1 then "s" else ""));
    } else {
      ReadsBackBefore(mins, " min");
    }
  }

  /** The text is "0 min" exactly when there is no minute at all. */
  lemma {:induction false} TimingTextZero(minutes: nat)
    ensures TimingText(minutes) == "0 min" <==> minutes == 0
  {
    if minutes > 0 {
      var days := minutes / (24 * 60);
      var hours := (minutes % (24 * 60)) / 60;
      var mins := minutes % 60;
      var parts := TimingParts(minutes);
      TimingPartsSplit(minutes);
      if days > 0 {
        assert parts[0] == IntToString(days) + (" day" + (if days > 1 then "s" else ""));
        PrintedPositiveStart(days, " day" + (if days > 1 then "s" else ""));
      } else if hours > 0 {
        assert parts[0] == IntToString(hours) + (" hour" + (if hours > 1 then "s" else ""));
        PrintedPositiveStart(hours, " hour" + (if hours > 1 then "s" else ""));
      } else {
        assert parts[0] == IntToString(mins) + " min";
        PrintedPositiveStart(mins, " min");
      }
      JoinFirst(parts, ' ');
    }
  }

  /** A printed positive number does not start with '0'. */
  lemma {:induction false} PrintedPositiveStart(v: nat, unit: string)
    requires v > 0
    ensures (IntToString(v) + unit)[0] != '0'
  {
    NatToStringNumeral(v);
  }

  /** The joined text begins with the first part. */
  lemma {:induction false} JoinFirst(parts: seq<string>, sep: char)
    requires |parts| >= 1 && parts[0] != []
    ensures Join(parts, sep) != [] && Join(parts, sep)[0] == parts[0][0]
  {
  }

  // ---------------------------------------------------------- derived items

  /** The comparator of the sort in `performCorrelationAnalysis`,
      `new Date(a.time) - new Date(b.time)`, on times already in milliseconds. */
  predicate EarlierEntry(a: RawEntry<int>, b: RawEntry<int>) {
    a.time < b.time
  }

  /** The items of a list of pieces grow by one item per piece. */
  lemma {:induction false} PieceItemsSnoc(rt: Runtime, ps: seq<string>, j: nat, time: int)
    requires j < |ps|
    ensures PieceItems(rt, ps[..j + 1], time) == PieceItems(rt, ps[..j], time) + [Item(Capitalize(rt, ps[j]), time)]
  {
    var a := PieceItems(rt, ps[..j + 1], time);
    var b := PieceItems(rt, ps[..j], time) + [Item(Capitalize(rt, ps[j]), time)];
    assert |a| == |b|;
    forall i | 0 <= i < |a| ensures a[i] == b[i] {
    }
  }

  /** The items of a prefix of the entries grow by the items of the next entry. */
  lemma {:induction false} BuildProcessedSnoc(rt: Runtime, raw: seq<RawEntry<int>>, e: nat)
    requires e < |raw|
    ensures BuildProcessed(rt, raw[..e + 1]) == BuildProcessed(rt, raw[..e]) + EntryItems(rt, raw[e])
  {
    assert raw[..e + 1][..e] == raw[..e];
  }

  /** The nested `forEach` of `performCorrelationAnalysis` that pushes one
      item per non-empty trimmed piece, capitalised, at its entry's time: it
      derives the same items as `buildProcessed` of js/app.js. */
  method FlattenEntries(rt: Runtime, sorted: seq<RawEntry<int>>) returns (allItems: seq<Item<int>>)
    ensures allItems == BuildProcessed(rt, sorted)
  {
    allItems := [];
    for e := 0 to |sorted|
      invariant allItems == BuildProcessed(rt, sorted[..e])
    {
      var entry := sorted[e];
      var items := Pieces(entry.text);
      for j := 0 to |items|
        invariant allItems == BuildProcessed(rt, sorted[..e]) + PieceItems(rt, items[..j], entry.time)
      {
        PieceItemsSnoc(rt, items, j, entry.time);
        allItems := allItems + [Item(Capitalize(rt, items[j]), entry.time)];
      }
      assert items[..|items|] == items;
      assert EntryItems(rt, entry) == PieceItems(rt, items, entry.time);
      BuildProcessedSnoc(rt, sorted, e);
    }
    assert sorted[..|sorted|] == sorted;
  }

  // ---------------------------------------------------------------- targets

  /** What the analysis looks for: the items equal to a text, the items equal
      to a member of a category, or nothing. */
  datatype Target = ItemTarget(value: string) | CategoryTarget(members: seq<string>) | NoTarget

  /** A category as the store returns it, with its key. */
  datatype StoredCategory = StoredCategory(key: int, category: Categories.Category)

  /** `categories.find(c => c.key === categoryKey)`, where a key `parseInt`
      could not read (NaN) equals no key. */
  function FindCategory(cats: seq<StoredCategory>, key: Option<int>): Option<Categories.Category> {
    if cats == [] || key.None? then None
    else if cats[0].key == key.value then Some(cats[0].category)
    else FindCategory(cats[1..], key)
  }

  /** The category found is the first one with the key. */
  lemma {:induction false} FindCategoryFirst(cats: seq<StoredCategory>, i: nat)
    requires i < |cats|
    requires forall j :: 0 <= j < i ==> cats[j].key != cats[i].key
    ensures FindCategory(cats, Some(cats[i].key)) == Some(cats[i].category)
  {
    if i > 0 {
      FindCategoryFirst(cats[1..], i - 1);
    }
  }

  /** No category is found for an unreadable key or a key no category has. */
  lemma {:induction false} FindCategoryMissing(cats: seq<StoredCategory>, key: Option<int>)
    requires key.None? || forall j :: 0 <= j < |cats| ==> cats[j].key != key.value
    ensures FindCategory(cats, key) == None
  {
    if cats != [] && key.Some? {
      FindCategoryMissing(cats[1..], key);
    }
  }

  /** The target `performCorrelationAnalysis` looks for, as written: an item
      text, or the `items` of the category with the key, which categories
      saved by js/categories.js do not have. */
  function ResolveTarget(targetType: string, targetValue: string, cats: seq<StoredCategory>): Target {
    if targetType == "item" then ItemTarget(targetValue)
    else if targetType == "category" then
      var category := FindCategory(cats, ParseInt(targetValue));
      if category.Some? && category.value.items.Some? then CategoryTarget(category.value.items.value)
      else NoTarget
    else NoTarget
  }

  /** The target with a category's members read from `foods`, the field
      `saveCategoryForm` writes. */
  function ResolveTargetByFoods(targetType: string, targetValue: string, cats: seq<StoredCategory>): Target {
    if targetType == "item" then ItemTarget(targetValue)
    else if targetType == "category" then
      var category := FindCategory(cats, ParseInt(targetValue));
      if category.Some? then CategoryTarget(Categories.FoodsOf(category.value))
      else NoTarget
    else NoTarget
  }

  /** Whether an item text is an occurrence of the target, compared under
      the normaliser `norm`. */
  predicate IsTarget(norm: string -> string, target: Target, text: string) {
    match target
    case ItemTarget(v) => norm(text) == norm(v)
    case CategoryTarget(ms) => exists i :: 0 <= i < |ms| && norm(ms[i]) == norm(text)
    case NoTarget => false
  }

  /** An item with its position in the list of all items. */
  datatype Indexed = Indexed(index: nat, item: Item<int>)

  /** `allItems.map((item, idx) => ({ item, idx }))`. */
  function Enumerate(items: seq<Item<int>>): (r: seq<Indexed>)
    ensures |r| == |items|
    ensures forall i :: 0 <= i < |items| ==> r[i] == Indexed(i, items[i])
  {
    seq(|items|, i requires 0 <= i < |items| => Indexed(i, items[i]))
  }

  function TargetTest(norm: string -> string, target: Target): Indexed -> bool {
    (x: Indexed) => IsTarget(norm, target, x.item.text)
  }

  /** `targetOccurrences`: the items that are occurrences of the target, with
      their positions, in order. */
  function TargetOccurrences(norm: string -> string, target: Target, items: seq<Item<int>>): seq<Indexed> {
    Filter(Enumerate(items), TargetTest(norm, target))
  }

  /** `targetIndices`. */
  function TargetIndices(targets: seq<Indexed>): set<nat> {
    set t | t in targets :: t.index
  }

  function NotTargetIndex(indices: set<nat>): Indexed -> bool {
    (x: Indexed) => x.index !in indices
  }

  /** `nonTargetItems`: the items whose position is not a target's. */
  function Candidates(items: seq<Item<int>>, targets: seq<Indexed>): seq<Indexed> {
    Filter(Enumerate(items), NotTargetIndex(TargetIndices(targets)))
  }

  /** The `forEach` of `performCorrelationAnalysis` that pushes the target
      occurrences; for any other target type, or a category without
      `items`, it pushes nothing. */
  method FindTargets(norm: string -> string, target: Target, allItems: seq<Item<int>>) returns (targets: seq<Indexed>)
    ensures targets == TargetOccurrences(norm, target, allItems)
  {
    targets := [];
    var all := Enumerate(allItems);
    if target.NoTarget? {
      FilterNone(all, TargetTest(norm, target));
      return;
    }
    for idx := 0 to |allItems|
      invariant targets == Filter(all[..idx], TargetTest(norm, target))
    {
      assert all[..idx + 1][..idx] == all[..idx];
      if IsTarget(norm, target, allItems[idx].text) {
        targets := targets + [Indexed(idx, allItems[idx])];
      }
    }
    assert all[..|allItems|] == all;
  }

  /** Every item is a target or a candidate and never both: a target exactly
      when its text is an occurrence of the target. Both lists hold items at
      their own positions. */
  lemma {:induction false} TargetsAndCandidates(norm: string -> string, target: Target, items: seq<Item<int>>)
    ensures var targets := TargetOccurrences(norm, target, items);
      var cands := Candidates(items, targets);
      && (forall i :: 0 <= i < |items| ==>
        && (Indexed(i, items[i]) in targets <==> IsTarget(norm, target, items[i].text))
        && (Indexed(i, items[i]) in cands <==> !IsTarget(norm, target, items[i].text)))
      && (forall x :: x in targets ==> x.index < |items| && x.item == items[x.index])
      && (forall x :: x in cands ==> x.index < |items| && x.item == items[x.index])
  {
    var all := Enumerate(items);
    var targets := TargetOccurrences(norm, target, items);
    var indices := TargetIndices(targets);
    var cands := Candidates(items, targets);
    forall x ensures x in targets <==> x in all && IsTarget(norm, target, x.item.text) {
      FilterKeeps(all, TargetTest(norm, target), x);
    }
    forall x ensures x in cands <==> x in all && x.index !in indices {
      FilterKeeps(all, NotTargetIndex(indices), x);
    }
    forall i | 0 <= i < |items|
      ensures i in indices <==> IsTarget(norm, target, items[i].text)
    {
      assert all[i] == Indexed(i, items[i]);
      if i in indices {
        var t :| t in targets && t.index == i;
        assert t in all;
      }
    }
  }

  /** Only the items of a category, or equal to the item text, are targets;
      there is none without a target. */
  lemma NoTargetNoOccurrences(norm: string -> string, items: seq<Item<int>>)
    ensures TargetOccurrences(norm, NoTarget, items) == []
    ensures Candidates(items, []) == Enumerate(items)
  {
    FilterNone(Enumerate(items), TargetTest(norm, NoTarget));
    FilterAll(Enumerate(items), NotTargetIndex(TargetIndices([])));
  }

  // --------------------------------------------------------- nearest target

  /** `Math.abs(a - b)`. */
  function Distance(a: int, b: int): nat {
    if a >= b then a - b else b - a
  }

  /** The target the scan of `performCorrelationAnalysis` settles on: a
      target replaces the best so far only when strictly nearer, and the
      first target always replaces `null`. */
  function Nearest(targets: seq<Indexed>, time: int): (r: Option<nat>)
    ensures r.Some? ==> r.value < |targets|
    ensures r.None? ==> targets == []
  {
    if targets == [] then None
    else
      var n := |targets| - 1;
      var best := Nearest(targets[..n], time);
      if best.None? || Distance(targets[n].item.time, time) < Distance(targets[best.value].item.time, time) then Some(n)
      else best
  }

  /** The chosen target is at the least distance from `time`, and every
      earlier target is strictly further: ties go to the first. */
  lemma {:induction false} NearestIsClosest(targets: seq<Indexed>, time: int)
    requires targets != []
    ensures var r := Nearest(targets, time);
      && r.Some?
      && (forall i :: 0 <= i < |targets| ==>
            Distance(targets[r.value].item.time, time) <= Distance(targets[i].item.time, time))
      && (forall i :: 0 <= i < r.value ==>
            Distance(targets[r.value].item.time, time) < Distance(targets[i].item.time, time))
  {
    var n := |targets| - 1;
    if n > 0 {
      NearestIsClosest(targets[..n], time);
    }
  }

  /** The scan of `performCorrelationAnalysis`, with `closestTarget` as an
      index into the targets and `null` (with `minTimeDiff` still Infinity)
      as `None`. */
  method NearestTarget(targets: seq<Indexed>, time: int) returns (closest: Option<nat>, minTimeDiff: int)
    ensures closest == Nearest(targets, time)
    ensures closest.Some? ==> minTimeDiff == Distance(targets[closest.value].item.time, time)
  {
    closest := None;
    minTimeDiff := 0;
    for k := 0 to |targets|
      invariant closest == Nearest(targets[..k], time)
      invariant closest.Some? ==> closest.value < k && minTimeDiff == Distance(targets[closest.value].item.time, time)
    {
      assert targets[..k + 1][..k] == targets[..k];
      var timeDiff := Distance(targets[k].item.time, time);
      if closest.None? || timeDiff < minTimeDiff {
        minTimeDiff := timeDiff;
        closest := Some(k);
      }
    }
    assert targets[..|targets|] == targets;
  }

  // ---------------------------------------------------------- classification

  /** `lookbackMs`. */
  function Lookback(timeframeHours: int): int {
    timeframeHours * 60 * 60 * 1000
  }

  /** `thresholdMs`, `Math.min(3, timeframeHours / 2)` hours: half an hour
      per hour of timeframe up to three hours, a whole number of
      milliseconds. */
  function Threshold(timeframeHours: int): int {
    if timeframeHours * 1800000 < 3 * 3600000 then timeframeHours * 1800000 else 3 * 3600000
  }

  /** The threshold is at most three hours and, for a timeframe that is not
      negative, lies between 0 and half the look-back. */
  lemma ThresholdWithinLookback(timeframeHours: int)
    ensures Threshold(timeframeHours) <= 10800000
    ensures timeframeHours >= 0 ==> 0 <= Threshold(timeframeHours) && 2 * Threshold(timeframeHours) <= Lookback(timeframeHours)
    ensures timeframeHours >= 6 ==> Threshold(timeframeHours) == 10800000
  {
  }

  datatype Kind = Positive | Neutral | Negative

  /** The branches at js/correlation.js:138-170 on `timeDiff`, the target's
      time minus the item's; `None` when none fires. */
  function Classify(timeDiff: int, thr: int, lookback: int): Option<Kind> {
    if timeDiff > 0 && timeDiff <= thr then Some(Positive)
    else if timeDiff > thr && timeDiff <= lookback then Some(Neutral)
    else if timeDiff < 0 && -timeDiff <= thr then Some(Negative)
    else if timeDiff < 0 && -timeDiff <= lookback then Some(Negative)
    else None
  }

  /** With `0 <= thr <= lookback`: an item up to `thr` before the target is
      positive, further before but within the look-back neutral, within the
      look-back after it negative, and one at the same time (or beyond the
      look-back) counts for nothing. */
  lemma ClassifyRanges(timeDiff: int, thr: int, lookback: int)
    requires 0 <= thr <= lookback
    ensures Classify(timeDiff, thr, lookback) == Some(Positive) <==> 0 < timeDiff <= thr
    ensures Classify(timeDiff, thr, lookback) == Some(Neutral) <==> thr < timeDiff <= lookback
    ensures Classify(timeDiff, thr, lookback) == Some(Negative) <==> -lookback <= timeDiff < 0
    ensures Classify(timeDiff, thr, lookback) == None <==> timeDiff == 0 || Distance(timeDiff, 0) > lookback
  {
  }

  /** `Math.round(ms / 60000)`: the nearest whole number of minutes, halves
      rounding up. */
  function RoundMinutes(ms: int): (r: int)
    ensures 60000 * r <= ms + 30000 < 60000 * (r + 1)
  {
    (ms + 30000) / 60000
  }

  // --------------------------------------------------------------- tallying

  /** An occurrence pushed for a candidate: its time, its kind and its
      distance to the target in whole minutes (`minutesBefore` or
      `minutesAfter`). */
  datatype Occurrence = Occurrence(time: int, kind: Kind, minutes: int)

  /** An entry of `correlationMap`. */
  datatype Tally = Tally(positive: nat, negative: nat, neutral: nat, occurrences: seq<Occurrence>)

  /** `correlationMap`: its entries, with its keys in order of insertion. */
  datatype TallyState = TallyState(keys: seq<string>, tallies: map<string, Tally>)

  /** The number of occurrences of one kind. */
  function CountKind(occ: seq<Occurrence>, k: Kind): (r: nat)
    ensures r <= |occ|
  {
    if occ == [] then 0
    else
      var n := |occ| - 1;
      CountKind(occ[..n], k) + (if occ[n].kind == k then 1 else 0)
  }

  /** Every occurrence is of exactly one kind. */
  lemma {:induction false} CountKindsSum(occ: seq<Occurrence>)
    ensures CountKind(occ, Positive) + CountKind(occ, Negative) + CountKind(occ, Neutral) == |occ|
  {
    if occ != [] {
      CountKindsSum(occ[..|occ| - 1]);
    }
  }

  /** Each counter counts the occurrences of its kind. */
  ghost predicate TallyWellFormed(t: Tally) {
    && t.positive == CountKind(t.occurrences, Positive)
    && t.negative == CountKind(t.occurrences, Negative)
    && t.neutral == CountKind(t.occurrences, Neutral)
  }

  /** The keys are distinct and are exactly the entries, and every entry is
      well formed. */
  ghost predicate StateWellFormed(s: TallyState) {
    && NoDuplicates(s.keys)
    && (forall k :: k in s.keys <==> k in s.tallies)
    && (forall k :: k in s.tallies ==> TallyWellFormed(s.tallies[k]))
  }

  /** The counter of the occurrence's kind goes up and the occurrence is pushed. */
  function Record(t: Tally, o: Occurrence): Tally {
    match o.kind
    case Positive => t.(positive := t.positive + 1, occurrences := t.occurrences + [o])
    case Neutral => t.(neutral := t.neutral + 1, occurrences := t.occurrences + [o])
    case Negative => t.(negative := t.negative + 1, occurrences := t.occurrences + [o])
  }

  /** Recording keeps a tally well formed. */
  lemma {:induction false} RecordKeepsCounts(t: Tally, o: Occurrence)
    requires TallyWellFormed(t)
    ensures TallyWellFormed(Record(t, o))
  {
    CountKindSnoc(t.occurrences, o, Positive);
    CountKindSnoc(t.occurrences, o, Negative);
    CountKindSnoc(t.occurrences, o, Neutral);
  }

  /** Pushing an occurrence adds one to the count of its kind only. */
  lemma {:induction false} CountKindSnoc(occ: seq<Occurrence>, o: Occurrence, k: Kind)
    ensures CountKind(occ + [o], k) == CountKind(occ, k) + (if o.kind == k then 1 else 0)
  {
    var occ' := occ + [o];
    assert occ'[..|occ'| - 1] == occ;
  }

  /** The candidate has a target and is within the look-back of its nearest one. */
  predicate InRange(targets: seq<Indexed>, c: Indexed, lookback: int) {
    var nearest := Nearest(targets, c.item.time);
    nearest.Some? && Distance(targets[nearest.value].item.time, c.item.time) <= lookback
  }

  /** `minutesBefore` of a positive or neutral occurrence, `minutesAfter` of
      a negative one. */
  function Minutes(kind: Kind, timeDiff: int): int {
    if kind == Negative then RoundMinutes(-timeDiff) else RoundMinutes(timeDiff)
  }

  /** What one candidate does to `correlationMap`: nothing when out of range;
      otherwise its text gets an entry, zeroed when new, and the
      classification, if any, is recorded in it. */
  function TallyStep(s: TallyState, targets: seq<Indexed>, c: Indexed, thr: int, lookback: int): TallyState {
    if !InRange(targets, c, lookback) then s
    else
      var timeDiff := targets[Nearest(targets, c.item.time).value].item.time - c.item.time;
      RecordIn(Enter(s, c.item.text), c.item.text, c.item.time, timeDiff, thr, lookback)
  }

  /** The text gets an entry, zeroed and placed last among the keys, unless it has one. */
  function Enter(s: TallyState, text: string): TallyState {
    if text in s.tallies then s else TallyState(s.keys + [text], s.tallies[text := Tally(0, 0, 0, [])])
  }

  /** The classification of `timeDiff`, if any, is recorded in the text's entry. */
  function RecordIn(s: TallyState, text: string, time: int, timeDiff: int, thr: int, lookback: int): TallyState
    requires text in s.tallies
  {
    var kind := Classify(timeDiff, thr, lookback);
    if kind.None? then s
    else s.(tallies := s.tallies[text := Record(s.tallies[text], Occurrence(time, kind.value, Minutes(kind.value, timeDiff)))])
  }

  /** `correlationMap` after the candidates, one after the other. */
  function TallyAll(targets: seq<Indexed>, cands: seq<Indexed>, thr: int, lookback: int): TallyState {
    if cands == [] then TallyState([], map[])
    else
      var n := |cands| - 1;
      TallyStep(TallyAll(targets, cands[..n], thr, lookback), targets, cands[n], thr, lookback)
  }

  /** A candidate out of range leaves the map as it was. */
  lemma TallyStepSkips(s: TallyState, targets: seq<Indexed>, c: Indexed, thr: int, lookback: int)
    requires !InRange(targets, c, lookback)
    ensures TallyStep(s, targets, c, thr, lookback) == s
  {
  }

  /** A candidate in range leaves every other text's entry as it was, and its
      own text has an entry afterwards, placed last among the keys when new. */
  lemma TallyStepOthers(s: TallyState, targets: seq<Indexed>, c: Indexed, thr: int, lookback: int)
    requires StateWellFormed(s) && InRange(targets, c, lookback)
    ensures var r := TallyStep(s, targets, c, thr, lookback);
      && c.item.text in r.tallies
      && r.keys == (if c.item.text in s.keys then s.keys else s.keys + [c.item.text])
      && forall k :: k != c.item.text ==>
        (k in r.tallies <==> k in s.tallies) && (k in s.tallies ==> r.tallies[k] == s.tallies[k])
  {
  }

  /** A candidate at the same time as its nearest target still gets an entry,
      zeroed when new, but no count and no occurrence. */
  lemma SameTimeNoCount(s: TallyState, targets: seq<Indexed>, c: Indexed, thr: int, lookback: int)
    requires 0 <= thr <= lookback
    requires targets != [] && targets[Nearest(targets, c.item.time).value].item.time == c.item.time
    ensures var r := TallyStep(s, targets, c, thr, lookback);
      && c.item.text in r.tallies
      && r.tallies[c.item.text] == (if c.item.text in s.tallies then s.tallies[c.item.text] else Tally(0, 0, 0, []))
  {
  }

  /** One step keeps the map well formed. */
  lemma {:induction false} TallyStepWellFormed(s: TallyState, targets: seq<Indexed>, c: Indexed, thr: int, lookback: int)
    requires StateWellFormed(s)
    ensures StateWellFormed(TallyStep(s, targets, c, thr, lookback))
  {
    if InRange(targets, c, lookback) {
      var timeDiff := targets[Nearest(targets, c.item.time).value].item.time - c.item.time;
      var s1 := Enter(s, c.item.text);
      EnterWellFormed(s, c.item.text);
      RecordInWellFormed(s1, c.item.text, c.item.time, timeDiff, thr, lookback);
      assert TallyStep(s, targets, c, thr, lookback) == RecordIn(s1, c.item.text, c.item.time, timeDiff, thr, lookback);
    }
  }

  /** Entering a text keeps the map well formed and gives the text an entry. */
  lemma {:induction false} EnterWellFormed(s: TallyState, text: string)
    requires StateWellFormed(s)
    ensures StateWellFormed(Enter(s, text)) && text in Enter(s, text).tallies
  {
    if text !in s.tallies {
      SetAddMembers(s.keys, text);
    }
  }

  /** Recording in an existing entry keeps the map well formed. */
  lemma {:induction false} RecordInWellFormed(s: TallyState, text: string, time: int, timeDiff: int, thr: int, lookback: int)
    requires StateWellFormed(s) && text in s.tallies
    ensures StateWellFormed(RecordIn(s, text, time, timeDiff, thr, lookback))
  {
    var kind := Classify(timeDiff, thr, lookback);
    if kind.Some? {
      RecordKeepsCounts(s.tallies[text], Occurrence(time, kind.value, Minutes(kind.value, timeDiff)));
    }
  }

  /** The whole map is well formed. */
  lemma {:induction false} TallyAllWellFormed(targets: seq<Indexed>, cands: seq<Indexed>, thr: int, lookback: int)
    ensures StateWellFormed(TallyAll(targets, cands, thr, lookback))
  {
    if cands != [] {
      var n := |cands| - 1;
      TallyAllWellFormed(targets, cands[..n], thr, lookback);
      TallyStepWellFormed(TallyAll(targets, cands[..n], thr, lookback), targets, cands[n], thr, lookback);
    }
  }

  /** Some candidate with this text is in range. */
  predicate SomeInRange(targets: seq<Indexed>, cands: seq<Indexed>, lookback: int, text: string) {
    exists i :: 0 <= i < |cands| && cands[i].item.text == text && InRange(targets, cands[i], lookback)
  }

  /** Such a candidate is among the earlier ones or is the last one. */
  lemma {:induction false} SomeInRangeSnoc(targets: seq<Indexed>, cands: seq<Indexed>, lookback: int, text: string)
    requires cands != []
    ensures var n := |cands| - 1;
      SomeInRange(targets, cands, lookback, text) <==>
        SomeInRange(targets, cands[..n], lookback, text) || (cands[n].item.text == text && InRange(targets, cands[n], lookback))
  {
    var n := |cands| - 1;
    if SomeInRange(targets, cands, lookback, text) {
      var i :| 0 <= i < |cands| && cands[i].item.text == text && InRange(targets, cands[i], lookback);
      if i < n {
        assert cands[..n][i] == cands[i];
      }
    }
    if SomeInRange(targets, cands[..n], lookback, text) {
      var i :| 0 <= i < n && cands[..n][i].item.text == text && InRange(targets, cands[..n][i], lookback);
      assert cands[i] == cands[..n][i];
    }
  }

  /** A text has an entry exactly when some candidate with that text is in range. */
  lemma {:induction false} TallyAllKeys(targets: seq<Indexed>, cands: seq<Indexed>, thr: int, lookback: int, text: string)
    ensures text in TallyAll(targets, cands, thr, lookback).tallies <==> SomeInRange(targets, cands, lookback, text)
  {
    if cands != [] {
      var n := |cands| - 1;
      var s := TallyAll(targets, cands[..n], thr, lookback);
      assert TallyAll(targets, cands, thr, lookback) == TallyStep(s, targets, cands[n], thr, lookback);
      TallyAllKeys(targets, cands[..n], thr, lookback, text);
      SomeInRangeSnoc(targets, cands, lookback, text);
      if InRange(targets, cands[n], lookback) {
        TallyAllWellFormed(targets, cands[..n], thr, lookback);
        TallyStepOthers(s, targets, cands[n], thr, lookback);
      } else {
        TallyStepSkips(s, targets, cands[n], thr, lookback);
      }
    }
  }

  /** Without targets the map stays empty. */
  lemma {:induction false} TallyAllNoTargets(cands: seq<Indexed>, thr: int, lookback: int)
    ensures TallyAll([], cands, thr, lookback) == TallyState([], map[])
  {
    if cands != [] {
      TallyAllNoTargets(cands[..|cands| - 1], thr, lookback);
    }
  }

  /** The loop over `nonTargetItems` of `performCorrelationAnalysis`, filling
      `correlationMap`. */
  method TallyCandidates(targets: seq<Indexed>, cands: seq<Indexed>, thr: int, lookback: int)
    returns (keys: seq<string>, tallies: map<string, Tally>)
    ensures TallyState(keys, tallies) == TallyAll(targets, cands, thr, lookback)
  {
    keys := [];
    tallies := map[];
    for k := 0 to |cands|
      invariant TallyState(keys, tallies) == TallyAll(targets, cands[..k], thr, lookback)
    {
      assert cands[..k + 1][..k] == cands[..k];
      var c := cands[k];
      var closest, minTimeDiff := NearestTarget(targets, c.item.time);
      if closest.None? || minTimeDiff > lookback {
        continue;
      }
      var itemText := c.item.text;
      if itemText !in tallies {
        tallies := tallies[itemText := Tally(0, 0, 0, [])];
        keys := keys + [itemText];
      }
      var timeDiff := targets[closest.value].item.time - c.item.time;
      var t := tallies[itemText];
      if timeDiff > 0 && timeDiff <= thr {
        tallies := tallies[itemText := t.(positive := t.positive + 1,
          occurrences := t.occurrences + [Occurrence(c.item.time, Positive, RoundMinutes(timeDiff))])];
      } else if timeDiff > thr && timeDiff <= lookback {
        tallies := tallies[itemText := t.(neutral := t.neutral + 1,
          occurrences := t.occurrences + [Occurrence(c.item.time, Neutral, RoundMinutes(timeDiff))])];
      } else if timeDiff < 0 && -timeDiff <= thr {
        tallies := tallies[itemText := t.(negative := t.negative + 1,
          occurrences := t.occurrences + [Occurrence(c.item.time, Negative, RoundMinutes(-timeDiff))])];
      } else if timeDiff < 0 && -timeDiff <= lookback {
        tallies := tallies[itemText := t.(negative := t.negative + 1,
          occurrences := t.occurrences + [Occurrence(c.item.time, Negative, RoundMinutes(-timeDiff))])];
      }
    }
    assert cands[..|cands|] == cands;
  }

  // ---------------------------------------------------------------- scores

  /** A score: `NaN` for an entry without counts (0 / 0), otherwise a number. */
  datatype Score = NaN | Value(v: real)

  /** An element of `correlationScores`. */
  datatype Correlation = Correlation(
    item: string, positiveCount: nat, negativeCount: nat, neutralCount: nat,
    total: nat, score: Score, occurrences: seq<Occurrence>)

  /** The record of one entry: `positive / total - negative / total`. */
  function ScoreOf(item: string, t: Tally): Correlation {
    var total := t.positive + t.negative + t.neutral;
    var score := if total == 0 then NaN
      else Value(t.positive as real / total as real - t.negative as real / total as real);
    Correlation(item, t.positive, t.negative, t.neutral, total, score, t.occurrences)
  }

  /** The facts every score record holds. */
  ghost predicate ScoreWellFormed(r: Correlation) {
    && r.total == r.positiveCount + r.negativeCount + r.neutralCount == |r.occurrences|
    && (r.score.NaN? <==> r.total == 0)
    && (r.score.Value? ==>
          && -1.0 <= r.score.v <= 1.0
          && r.score.v == (r.positiveCount - r.negativeCount) as real / r.total as real)
  }

  /** A record of a well-formed entry: the counts add up to the total, which
      is the number of occurrences; the score is NaN exactly when the total
      is 0 and otherwise lies in [-1, 1]. */
  lemma {:induction false} ScoreOfWellFormed(item: string, t: Tally)
    requires TallyWellFormed(t)
    ensures ScoreWellFormed(ScoreOf(item, t))
  {
    CountKindsSum(t.occurrences);
    var total := t.positive + t.negative + t.neutral;
    if total > 0 {
      RatioBounds(t.positive, t.negative, total);
    }
  }

  lemma {:induction false} RatioBounds(p: nat, n: nat, total: nat)
    requires 0 < total && p + n <= total
    ensures p as real / total as real - n as real / total as real == (p - n) as real / total as real
    ensures -1.0 <= (p - n) as real / total as real <= 1.0
  {
    var t := total as real;
    var a := p as real / t;
    var b := n as real / t;
    var w := (p - n) as real / t;
    assert a * t == p as real && b * t == n as real && w * t == (p - n) as real;
    assert (a - b) * t == a * t - b * t;
    MulCancel(a - b, w, t);
    if w > 1.0 {
      MulStrict(1.0, w, t);
    }
    if w < -1.0 {
      MulStrict(w, -1.0, t);
    }
  }

  lemma MulStrict(x: real, y: real, t: real)
    requires x < y && 0.0 < t
    ensures x * t < y * t
  {
  }

  lemma MulCancel(x: real, y: real, t: real)
    requires t != 0.0 && x * t == y * t
    ensures x == y
  {
    assert (x - y) * t == 0.0;
  }

  /** `Object.entries(correlationMap)` turned into records, in enumeration order. */
  function ScoreRecords(order: seq<string>, tallies: map<string, Tally>): (r: seq<Correlation>)
    requires forall k :: k in order ==> k in tallies
    ensures |r| == |order|
    ensures forall i :: 0 <= i < |order| ==> r[i] == ScoreOf(order[i], tallies[order[i]])
  {
    if order == [] then []
    else
      var n := |order| - 1;
      ScoreRecords(order[..n], tallies) + [ScoreOf(order[n], tallies[order[n]])]
  }

  /** The `forEach` over `Object.entries(correlationMap)` that pushes the records. */
  method ScoreCorrelations(order: seq<string>, tallies: map<string, Tally>) returns (scores: seq<Correlation>)
    requires forall k :: k in order ==> k in tallies
    ensures scores == ScoreRecords(order, tallies)
  {
    scores := [];
    for i := 0 to |order|
      invariant scores == ScoreRecords(order[..i], tallies)
    {
      assert order[..i + 1][..i] == order[..i];
      var itemName := order[i];
      var counts := tallies[itemName];
      var total := counts.positive + counts.negative + counts.neutral;
      var score := if total == 0 then NaN
        else Value(counts.positive as real / total as real - counts.negative as real / total as real);
      scores := scores + [Correlation(itemName, counts.positive, counts.negative, counts.neutral, total, score, counts.occurrences)];
    }
    assert order[..|order|] == order;
  }

  /** The comparator `b.score - a.score`: `a` goes first when its score is
      higher. A NaN score compares as equal to everything. */
  predicate HigherScore(a: Correlation, b: Correlation) {
    a.score.Value? && b.score.Value? && a.score.v > b.score.v
  }

  /** The record has the score `v`. */
  function ScoreIs(v: Score): Correlation -> bool {
    (r: Correlation) => r.score == v
  }

  // --------------------------------------------------------------- analysis

  /** The value `performCorrelationAnalysis` returns. */
  datatype Analysis = Analysis(targetOccurrences: nat, correlations: seq<Correlation>, timeframeHours: int)

  /** The enumeration order covers exactly the entries of a well-formed map. */
  lemma {:induction false} PropertyOrderInMap(s: TallyState)
    requires StateWellFormed(s)
    ensures forall k :: k in PropertyOrder(s.keys) ==> k in s.tallies
  {
    forall k | k in PropertyOrder(s.keys) ensures k in s.tallies {
      assert k in multiset(PropertyOrder(s.keys));
    }
  }

  /** The derived items of the raw entries, in time order. */
  function SortedItems(rt: Runtime, raw: seq<RawEntry<int>>): seq<Item<int>> {
    BuildProcessed(rt, SortBy(raw, EarlierEntry))
  }

  /** `correlationMap` at the end of the scan. */
  function FinalTallies(rt: Runtime, norm: string -> string, raw: seq<RawEntry<int>>, target: Target, timeframeHours: int): TallyState {
    var items := SortedItems(rt, raw);
    var targets := TargetOccurrences(norm, target, items);
    TallyAll(targets, Candidates(items, targets), Threshold(timeframeHours), Lookback(timeframeHours))
  }

  /** The final map is well formed. */
  lemma {:induction false} FinalTalliesWellFormed(rt: Runtime, norm: string -> string, raw: seq<RawEntry<int>>, target: Target, timeframeHours: int)
    ensures StateWellFormed(FinalTallies(rt, norm, raw, target, timeframeHours))
  {
    var items := SortedItems(rt, raw);
    var targets := TargetOccurrences(norm, target, items);
    TallyAllWellFormed(targets, Candidates(items, targets), Threshold(timeframeHours), Lookback(timeframeHours));
  }

  /** The records of a well-formed map, in enumeration order. */
  function ScoreMap(st: TallyState): seq<Correlation>
    requires StateWellFormed(st)
  {
    PropertyOrderInMap(st);
    ScoreRecords(PropertyOrder(st.keys), st.tallies)
  }

  /** `correlationScores` before the sort. */
  function Records(rt: Runtime, norm: string -> string, raw: seq<RawEntry<int>>, target: Target, timeframeHours: int): seq<Correlation> {
    FinalTalliesWellFormed(rt, norm, raw, target, timeframeHours);
    ScoreMap(FinalTallies(rt, norm, raw, target, timeframeHours))
  }

  /** `correlationScores` after the sort. */
  function Correlations(rt: Runtime, norm: string -> string, raw: seq<RawEntry<int>>, target: Target, timeframeHours: int): seq<Correlation> {
    SortBy(Records(rt, norm, raw, target, timeframeHours), HigherScore)
  }

  /** The result of `performCorrelationAnalysis` for a resolved target. */
  function Analyze(rt: Runtime, norm: string -> string, raw: seq<RawEntry<int>>, target: Target, timeframeHours: int): Analysis {
    var targets := TargetOccurrences(norm, target, SortedItems(rt, raw));
    Analysis(|targets|, Correlations(rt, norm, raw, target, timeframeHours), timeframeHours)
  }

  /** `performCorrelationAnalysis` of js/correlation.js, with the normaliser
      `norm` as a parameter and the categories as the store holds them. */
  method PerformCorrelationAnalysis(rt: Runtime, norm: string -> string, categories: seq<StoredCategory>,
                                    rawEntries: seq<RawEntry<int>>, targetType: string, targetValue: string,
                                    timeframeHours: int)
    returns (result: Analysis)
    ensures result == Analyze(rt, norm, rawEntries, ResolveTarget(targetType, targetValue, categories), timeframeHours)
  {
    var sorted := SortBy(rawEntries, EarlierEntry);
    var allItems := FlattenEntries(rt, sorted);
    var target := ResolveTarget(targetType, targetValue, categories);
    var targetOccurrences := FindTargets(norm, target, allItems);
    var lookbackMs := Lookback(timeframeHours);
    var thresholdMs := Threshold(timeframeHours);
    var nonTargetItems := Candidates(allItems, targetOccurrences);
    var keys, correlationMap := TallyCandidates(targetOccurrences, nonTargetItems, thresholdMs, lookbackMs);
    TallyAllWellFormed(targetOccurrences, nonTargetItems, thresholdMs, lookbackMs);
    PropertyOrderInMap(TallyState(keys, correlationMap));
    var correlationScores := ScoreCorrelations(PropertyOrder(keys), correlationMap);
    correlationScores := SortBy(correlationScores, HigherScore);
    result := Analysis(|targetOccurrences|, correlationScores, timeframeHours);
  }

  /** Every returned record is well formed: counts adding up to the total,
      which is the number of occurrences, and a score that is NaN exactly
      when the total is 0 and lies in [-1, 1] otherwise. */
  lemma {:induction false} AnalyzeScoresWellFormed(rt: Runtime, norm: string -> string, raw: seq<RawEntry<int>>, target: Target, timeframeHours: int)
    ensures forall r :: r in Analyze(rt, norm, raw, target, timeframeHours).correlations ==> ScoreWellFormed(r)
  {
    var st := FinalTallies(rt, norm, raw, target, timeframeHours);
    FinalTalliesWellFormed(rt, norm, raw, target, timeframeHours);
    assert Records(rt, norm, raw, target, timeframeHours) == ScoreMap(st);
    StateScores(st);
  }

  /** The same, for any well-formed map. */
  lemma {:induction false} StateScores(st: TallyState)
    requires StateWellFormed(st)
    ensures forall r :: r in SortBy(ScoreMap(st), HigherScore) ==> ScoreWellFormed(r)
  {
    PropertyOrderInMap(st);
    var order := PropertyOrder(st.keys);
    var records := ScoreMap(st);
    assert records == ScoreRecords(order, st.tallies);
    forall r | r in SortBy(records, HigherScore) ensures ScoreWellFormed(r) {
      assert r in multiset(records);
      var i :| 0 <= i < |records| && records[i] == r;
      ScoreOfWellFormed(order[i], st.tallies[order[i]]);
    }
  }

  /** The records come out as a permutation of the map's records, ordered by
      non-increasing score wherever both scores are numbers. */
  lemma {:induction false} AnalyzeSorted(rt: Runtime, norm: string -> string, raw: seq<RawEntry<int>>, target: Target, timeframeHours: int)
    ensures var cs := Analyze(rt, norm, raw, target, timeframeHours).correlations;
      && multiset(cs) == multiset(Records(rt, norm, raw, target, timeframeHours))
      && forall i, j :: 0 <= i < j < |cs| && cs[i].score.Value? && cs[j].score.Value? ==>
           cs[i].score.v >= cs[j].score.v
  {
    var records := Records(rt, norm, raw, target, timeframeHours);
    HigherScoreIsStrictOrder(records);
    SortBySorted(records, HigherScore);
  }

  /** Comparing scores is a strict order on any records. */
  lemma HigherScoreIsStrictOrder(records: seq<Correlation>)
    ensures StrictOrderOn(records, HigherScore)
  {
  }

  /** With no NaN score the comparator is consistent, and records with equal
      scores keep the order in which the map enumerated them. */
  lemma {:induction false} AnalyzeStable(rt: Runtime, norm: string -> string, raw: seq<RawEntry<int>>, target: Target, timeframeHours: int, v: Score)
    requires forall r :: r in Records(rt, norm, raw, target, timeframeHours) ==> r.score.Value?
    ensures Filter(Analyze(rt, norm, raw, target, timeframeHours).correlations, ScoreIs(v))
         == Filter(Records(rt, norm, raw, target, timeframeHours), ScoreIs(v))
  {
    var records := Records(rt, norm, raw, target, timeframeHours);
    assert StrictWeakOrderOn(records, HigherScore);
    SortByStable(records, HigherScore, ScoreIs(v));
  }

  /** Some record is for `text`. */
  predicate HasItem(cs: seq<Correlation>, text: string) {
    exists i :: 0 <= i < |cs| && cs[i].item == text
  }

  /** No two records are for the same text. */
  predicate DistinctItems(cs: seq<Correlation>) {
    forall i, j :: 0 <= i < j < |cs| ==> cs[i].item != cs[j].item
  }

  /** An item text has a record exactly when some candidate with that text is
      within the look-back of its nearest target. */
  lemma {:induction false} AnalyzeEntries(rt: Runtime, norm: string -> string, raw: seq<RawEntry<int>>, target: Target, timeframeHours: int, text: string)
    ensures var items := SortedItems(rt, raw);
      var targets := TargetOccurrences(norm, target, items);
      var cands := Candidates(items, targets);
      HasItem(Analyze(rt, norm, raw, target, timeframeHours).correlations, text) <==>
        SomeInRange(targets, cands, Lookback(timeframeHours), text)
  {
    var items := SortedItems(rt, raw);
    var targets := TargetOccurrences(norm, target, items);
    var cands := Candidates(items, targets);
    var thr := Threshold(timeframeHours);
    var lb := Lookback(timeframeHours);
    TallyAllKeys(targets, cands, thr, lb, text);
    FinalRecords(rt, norm, raw, target, timeframeHours, text);
  }

  /** No item text has two records. */
  lemma {:induction false} AnalyzeDistinctItems(rt: Runtime, norm: string -> string, raw: seq<RawEntry<int>>, target: Target, timeframeHours: int)
    ensures DistinctItems(Analyze(rt, norm, raw, target, timeframeHours).correlations)
  {
    FinalRecords(rt, norm, raw, target, timeframeHours, "");
  }

  /** The sorted records carry exactly the keys of the final map, once each. */
  lemma {:induction false} FinalRecords(rt: Runtime, norm: string -> string, raw: seq<RawEntry<int>>, target: Target, timeframeHours: int, text: string)
    ensures HasItem(Correlations(rt, norm, raw, target, timeframeHours), text) <==>
      text in FinalTallies(rt, norm, raw, target, timeframeHours).tallies
    ensures DistinctItems(Correlations(rt, norm, raw, target, timeframeHours))
  {
    var st := FinalTallies(rt, norm, raw, target, timeframeHours);
    FinalTalliesWellFormed(rt, norm, raw, target, timeframeHours);
    assert Records(rt, norm, raw, target, timeframeHours) == ScoreMap(st);
    assert Correlations(rt, norm, raw, target, timeframeHours) == SortBy(ScoreMap(st), HigherScore);
    StateRecords(st, text);
  }

  /** The same, for any well-formed map. */
  lemma {:induction false} StateRecords(st: TallyState, text: string)
    requires StateWellFormed(st)
    ensures HasItem(SortBy(ScoreMap(st), HigherScore), text) <==> text in st.tallies
    ensures DistinctItems(SortBy(ScoreMap(st), HigherScore))
  {
    PropertyOrderInMap(st);
    var order := PropertyOrder(st.keys);
    KeysReordered(st.keys, order, text);
    var records := ScoreRecords(order, st.tallies);
    assert ScoreMap(st) == records;
    OrderRecords(order, st.tallies, text);
  }

  /** The sorted records of distinct keys carry those keys, once each. */
  lemma {:induction false} OrderRecords(order: seq<string>, tallies: map<string, Tally>, text: string)
    requires forall k :: k in order ==> k in tallies
    requires NoDuplicates(order)
    ensures HasItem(SortBy(ScoreRecords(order, tallies), HigherScore), text) <==> text in order
    ensures DistinctItems(SortBy(ScoreRecords(order, tallies), HigherScore))
  {
    var records := ScoreRecords(order, tallies);
    RecordsOfOrder(order, tallies, text);
    PermutedRecords(records, SortBy(records, HigherScore), text);
  }

  /** A reordering of distinct keys holds the same keys, still distinct. */
  lemma {:induction false} KeysReordered(keys: seq<string>, order: seq<string>, text: string)
    requires multiset(keys) == multiset(order) && NoDuplicates(keys)
    ensures NoDuplicates(order) && (text in order <==> text in keys)
  {
    PermutationNoDuplicates(keys, order);
    assert text in order <==> text in multiset(order);
  }

  /** The records of distinct keys carry those keys, once each. */
  lemma {:induction false} RecordsOfOrder(order: seq<string>, tallies: map<string, Tally>, text: string)
    requires forall k :: k in order ==> k in tallies
    requires NoDuplicates(order)
    ensures HasItem(ScoreRecords(order, tallies), text) <==> text in order
    ensures DistinctItems(ScoreRecords(order, tallies))
  {
    var records := ScoreRecords(order, tallies);
    forall i, j | 0 <= i < j < |records| ensures records[i].item != records[j].item {
      assert records[i].item == order[i] && records[j].item == order[j];
    }
    if exists i :: 0 <= i < |records| && records[i].item == text {
      var i :| 0 <= i < |records| && records[i].item == text;
      assert records[i].item == order[i];
    }
    if text in order {
      var k :| 0 <= k < |order| && order[k] == text;
      assert records[k].item == text;
    }
  }

  /** A permutation of records with distinct items has the same items, still
      distinct. */
  lemma {:induction false} PermutedRecords(records: seq<Correlation>, cs: seq<Correlation>, text: string)
    requires multiset(records) == multiset(cs)
    requires DistinctItems(records)
    ensures HasItem(cs, text) <==> HasItem(records, text)
    ensures DistinctItems(cs)
  {
    assert NoDuplicates(records);
    PermutationNoDuplicates(records, cs);
    if exists i :: 0 <= i < |cs| && cs[i].item == text {
      var i :| 0 <= i < |cs| && cs[i].item == text;
      assert cs[i] in multiset(records);
    }
    if exists i :: 0 <= i < |records| && records[i].item == text {
      var i :| 0 <= i < |records| && records[i].item == text;
      assert records[i] in multiset(cs);
    }
    forall i, j | 0 <= i < j < |cs| ensures cs[i].item != cs[j].item {
      assert cs[i] in multiset(records) && cs[j] in multiset(records);
      var ki :| 0 <= ki < |records| && records[ki] == cs[i];
      var kj :| 0 <= kj < |records| && records[kj] == cs[j];
    }
  }

  /** Without a target there is no occurrence and no record. */
  lemma {:induction false} NoTargetNoCorrelations(rt: Runtime, norm: string -> string, raw: seq<RawEntry<int>>, timeframeHours: int)
    ensures Analyze(rt, norm, raw, NoTarget, timeframeHours) == Analysis(0, [], timeframeHours)
  {
    var items := SortedItems(rt, raw);
    NoTargetNoOccurrences(norm, items);
    TallyAllNoTargets(Candidates(items, []), Threshold(timeframeHours), Lookback(timeframeHours));
    assert PropertyOrder([]) == [];
  }

  /** A target type other than "item" and "category", an unreadable or
      unknown category key, and a category without `items` all leave the
      analysis without targets. */
  lemma ResolveTargetNone(targetType: string, targetValue: string, cats: seq<StoredCategory>)
    ensures targetType != "item" && targetType != "category" ==> ResolveTarget(targetType, targetValue, cats) == NoTarget
    ensures targetType == "category" && FindCategory(cats, ParseInt(targetValue)).None? ==>
      ResolveTarget(targetType, targetValue, cats) == NoTarget
    ensures (targetType == "category" && FindCategory(cats, ParseInt(targetValue)).Some? &&
             FindCategory(cats, ParseInt(targetValue)).value.items.None?) ==>
      ResolveTarget(targetType, targetValue, cats) == NoTarget
  {
  }

  /** As written, a category saved by `saveCategoryForm` (foods, no items)
      selected through its option value yields no target occurrence and no
      record, whatever was logged. */
  lemma {:induction false} SavedCategoryFindsNothing(rt: Runtime, norm: string -> string, raw: seq<RawEntry<int>>, timeframeHours: int,
                                                     cats: seq<StoredCategory>, i: nat, name: string, color: string, foods: seq<string>)
    requires i < |cats| && cats[i].category == Categories.Category(name, color, Some(foods), None)
    requires forall j :: 0 <= j < i ==> cats[j].key != cats[i].key
    ensures var sel := Decode(EncodeCategory(cats[i].key));
      sel.targetValue.Some? &&
      Analyze(rt, norm, raw, ResolveTarget(sel.targetType, sel.targetValue.value, cats), timeframeHours) == Analysis(0, [], timeframeHours)
  {
    DecodeEncodeCategory(cats[i].key);
    FindCategoryFirst(cats, i);
    var sel := Decode(EncodeCategory(cats[i].key));
    assert ResolveTarget(sel.targetType, sel.targetValue.value, cats) == NoTarget;
    NoTargetNoCorrelations(rt, norm, raw, timeframeHours);
  }

  /** Read from `foods`, the same category's targets are the items equal
      under the normaliser to one of its foods. */
  lemma {:induction false} SavedCategoryByFoods(cats: seq<StoredCategory>, i: nat, name: string, color: string, foods: seq<string>)
    requires i < |cats| && cats[i].category == Categories.Category(name, color, Some(foods), None)
    requires forall j :: 0 <= j < i ==> cats[j].key != cats[i].key
    ensures var sel := Decode(EncodeCategory(cats[i].key));
      sel.targetValue.Some? &&
      ResolveTargetByFoods(sel.targetType, sel.targetValue.value, cats) == CategoryTarget(foods)
  {
    DecodeEncodeCategory(cats[i].key);
    FindCategoryFirst(cats, i);
  }

  /** So an item logged under one of the foods is an occurrence of the
      category, and the analysis counts at least one. */
  lemma {:induction false} ByFoodsCountsLoggedFood(rt: Runtime, norm: string -> string, raw: seq<RawEntry<int>>, timeframeHours: int,
                                                   foods: seq<string>, i: nat, f: nat)
    requires i < |SortedItems(rt, raw)| && f < |foods|
    requires norm(SortedItems(rt, raw)[i].text) == norm(foods[f])
    ensures Analyze(rt, norm, raw, CategoryTarget(foods), timeframeHours).targetOccurrences > 0
  {
    var items := SortedItems(rt, raw);
    TargetsAndCandidates(norm, CategoryTarget(foods), items);
    assert IsTarget(norm, CategoryTarget(foods), items[i].text);
    assert Indexed(i, items[i]) in TargetOccurrences(norm, CategoryTarget(foods), items);
  }
}
