/** js/entry.js: the add action that either adds a new entry or saves the
    entry being edited, and the quick buttons ranked by how often each item
    text occurs. */
module Entry {
  import opened JsString
  import opened JsArray
  import opened JsObject
  import opened App

  // ------------------------------------------------------------- addEntry

  /** What the form sends to the store: an update of the entry being
      edited, or a new entry. */
  function Submission(editingKey: Option<int>, entry: RawEntry<string>): (w: StoreWrite)
    ensures w.entry == entry
    ensures w.UpdateRaw? <==> editingKey.Some?
  {
    match editingKey
    case Some(key) => UpdateRaw(key, entry)
    case None => AddRaw(entry)
  }

  /** `addEntry` of js/entry.js. The text is trimmed first; with no date or
      no text nothing happens. Otherwise the entry is sent as an update of
      the entry being edited, which ends the edit, or else as a new entry;
      either way the text field is cleared. */
  method AddEntry(f: EntryForm)
    modifies f
    ensures var value := Trim(old(f.text));
      if old(f.dt) == "" || value == "" then unchanged(f)
      else
        && f.writes == old(f.writes) + [Submission(old(f.editingKey), RawEntry(old(f.dt), value))]
        && f.dt == old(f.dt) && f.text == "" && f.editingKey == None
        && (if old(f.editingKey).Some? then f.saveLabel == "Save" && f.discardHidden
            else f.saveLabel == old(f.saveLabel) && f.discardHidden == old(f.discardHidden))
    ensures old(f.Consistent()) ==> f.Consistent()
  {
    var time := f.dt;
    var value := Trim(f.text);
    if time == "" || value == "" {
      return;
    }
    var entry := RawEntry(time, value);
    if f.editingKey.Some? {
      f.writes := f.writes + [UpdateRaw(f.editingKey.value, entry)];
      f.editingKey := None;
      f.saveLabel := "Save";
      f.discardHidden := true;
    } else {
      f.writes := f.writes + [AddRaw(entry)];
    }
    f.text := "";
  }

  // ----------------------------------------------------------- occurrences

  /** The `counts` object filled by the `forEach`: for each text seen, how
      many times it has been seen. */
  function Counts(texts: seq<string>): map<string, nat> {
    if texts == [] then map[]
    else
      var n := |texts| - 1;
      var m := Counts(texts[..n]);
      m[texts[n] := CountOf(m, texts[n]) + 1]
  }

  /** `counts[t] || 0`. */
  function CountOf(counts: map<string, nat>, t: string): nat {
    if t in counts then counts[t] else 0
  }

  /** The counts hold exactly the texts that occur, each with its number of
      occurrences. */
  lemma {:induction false} CountsAreOccurrences(texts: seq<string>)
    ensures forall t :: t in Counts(texts) <==> t in texts
    ensures forall t :: CountOf(Counts(texts), t) == multiset(texts)[t]
  {
    if texts != [] {
      var n := |texts| - 1;
      CountsAreOccurrences(texts[..n]);
      assert texts == texts[..n] + [texts[n]];
    }
  }

  /** The counting loop: it also records the order in which the keys of
      `counts` were first created. */
  method CountTexts<T>(items: seq<Item<T>>) returns (counts: map<string, nat>, created: seq<string>)
    ensures counts == Counts(Texts(items))
    ensures created == Distinct(Texts(items))
  {
    counts := map[];
    created := [];
    ghost var seen: seq<string> := [];
    var i := 0;
    while i < |items|
      invariant 0 <= i <= |items|
      invariant seen == Texts(items[..i])
      invariant counts == Counts(seen) && created == Distinct(seen)
    {
      var t := items[i].text;
      TextsStep(items, i);
      CountLoopStep(seen, t, counts, created);
      if t !in counts {
        created := created + [t];
      }
      counts := counts[t := CountOf(counts, t) + 1];
      seen := seen + [t];
      i := i + 1;
    }
    assert items[..|items|] == items;
  }

  lemma {:induction false} TextsStep<T>(items: seq<Item<T>>, i: nat)
    requires i < |items|
    ensures Texts(items[..i + 1]) == Texts(items[..i]) + [items[i].text]
  {
    assert items[..i + 1] == items[..i] + [items[i]];
    MapConcat(items[..i], [items[i]], (e: Item<T>) => e.text);
  }

  lemma {:induction false} CountLoopStep(seen: seq<string>, t: string, counts: map<string, nat>, created: seq<string>)
    requires counts == Counts(seen) && created == Distinct(seen)
    ensures counts[t := CountOf(counts, t) + 1] == Counts(seen + [t])
    ensures (if t in counts then created else created + [t]) == Distinct(seen + [t])
  {
    CountsStep(seen, t);
  }

  /** One round of the loop: the next text is counted, and it is a new key
      exactly when it has not been counted before. */
  lemma {:induction false} CountsStep(a: seq<string>, t: string)
    ensures Counts(a + [t]) == Counts(a)[t := CountOf(Counts(a), t) + 1]
    ensures Distinct(a + [t]) == if t in Counts(a) then Distinct(a) else Distinct(a) + [t]
  {
    assert (a + [t])[..|a|] == a;
    CountsAreOccurrences(a);
  }

  // -------------------------------------------------------------- ranking

  /** The filter of the quick list: an empty normalised filter keeps everything. */
  predicate MatchesFilter(norm: string -> string, filterNorm: string, t: string) {
    filterNorm == [] || Includes(norm(t), filterNorm)
  }

  /** The comparator `diff !== 0 ? diff : a.localeCompare(b)` with
      `diff = counts[b] - counts[a]` returns a negative number. */
  predicate QuickBefore(rt: Runtime, counts: map<string, nat>, a: string, b: string) {
    var diff := CountOf(counts, b) - CountOf(counts, a);
    if diff != 0 then diff < 0 else rt.localeCompare(a, b) < 0
  }

  /** The texts of the quick buttons, in order: the keys of `counts`,
      filtered on the normalised filter, sorted by the comparator. `norm` is
      `normalizeText` when one is loaded, otherwise the identity. */
  function QuickList(rt: Runtime, norm: string -> string, filterValue: string, texts: seq<string>): seq<string> {
    var filterNorm := norm(filterValue);
    var counts := Counts(texts);
    var keys := PropertyOrder(Distinct(texts));
    SortBy(Filter(keys, t => MatchesFilter(norm, filterNorm, t)), (a, b) => QuickBefore(rt, counts, a, b))
  }

  /** `updateQuickButtons` of js/entry.js: the button texts it creates. */
  method UpdateQuickButtons<T>(rt: Runtime, norm: string -> string, filterValue: string, items: seq<Item<T>>)
    returns (buttons: seq<string>)
    ensures buttons == QuickList(rt, norm, filterValue, Texts(items))
  {
    var filterNorm := norm(filterValue);
    var counts, created := CountTexts(items);
    var keys := PropertyOrder(created);
    var shown := Filter(keys, t => MatchesFilter(norm, filterNorm, t));
    buttons := SortBy(shown, (a, b) => QuickBefore(rt, counts, a, b));
  }

  /** There is one button per distinct text that passes the filter, and no
      other. */
  lemma {:induction false} QuickListMembers(rt: Runtime, norm: string -> string, filterValue: string, texts: seq<string>)
    ensures var r := QuickList(rt, norm, filterValue, texts);
      && NoDuplicates(r)
      && forall t :: t in r <==> t in texts && MatchesFilter(norm, norm(filterValue), t)
  {
    var filterNorm := norm(filterValue);
    var d := Distinct(texts);
    var keys := PropertyOrder(d);
    var p := t => MatchesFilter(norm, filterNorm, t);
    var shown := Filter(keys, p);
    var r := QuickList(rt, norm, filterValue, texts);
    PermutationNoDuplicates(d, keys);
    FilterNoDuplicates(keys, p);
    PermutationNoDuplicates(shown, r);
    forall t ensures t in r <==> t in texts && MatchesFilter(norm, filterNorm, t) {
      FilterKeeps(keys, p, t);
      assert t in r <==> t in multiset(shown);
      assert t in keys <==> t in multiset(d);
    }
  }

  /** An empty normalised filter shows every distinct text. */
  lemma EmptyFilterShowsAll(rt: Runtime, norm: string -> string, filterValue: string, texts: seq<string>)
    requires norm(filterValue) == ""
    ensures forall t :: t in QuickList(rt, norm, filterValue, texts) <==> t in texts
  {
    QuickListMembers(rt, norm, filterValue, texts);
  }

  /** `localeCompare` orders the strings of `s` consistently: never both
      ways, and transitively. */
  ghost predicate LocaleOrderOn(rt: Runtime, s: seq<string>) {
    && (forall a, b | a in s && b in s :: rt.localeCompare(a, b) < 0 ==> !(rt.localeCompare(b, a) < 0))
    && (forall a, b, c | a in s && b in s && c in s ::
          rt.localeCompare(a, b) < 0 && rt.localeCompare(b, c) < 0 ==> rt.localeCompare(a, c) < 0)
  }

  lemma {:induction false} QuickBeforeIsStrictOrder(rt: Runtime, counts: map<string, nat>, s: seq<string>)
    requires LocaleOrderOn(rt, s)
    ensures StrictOrderOn(s, (a, b) => QuickBefore(rt, counts, a, b))
  {
  }

  /** Buttons come by count, most frequent first, and equally frequent texts
      in `localeCompare` order, provided `localeCompare` is consistent. */
  lemma {:induction false} QuickListRanked(rt: Runtime, norm: string -> string, filterValue: string, texts: seq<string>)
    requires LocaleOrderOn(rt, texts)
    ensures var r := QuickList(rt, norm, filterValue, texts);
      forall i, j :: 0 <= i < j < |r| ==>
        && multiset(texts)[r[i]] >= multiset(texts)[r[j]]
        && (multiset(texts)[r[i]] == multiset(texts)[r[j]] ==> !(rt.localeCompare(r[j], r[i]) < 0))
  {
    var filterNorm := norm(filterValue);
    var counts := Counts(texts);
    var keys := PropertyOrder(Distinct(texts));
    var shown := Filter(keys, t => MatchesFilter(norm, filterNorm, t));
    var before := (a, b) => QuickBefore(rt, counts, a, b);
    QuickListMembers(rt, norm, filterValue, texts);
    var r := QuickList(rt, norm, filterValue, texts);
    assert LocaleOrderOn(rt, shown) by {
      forall t | t in shown ensures t in texts {
        FilterKeeps(keys, t => MatchesFilter(norm, filterNorm, t), t);
        assert t in multiset(keys);
      }
    }
    QuickBeforeIsStrictOrder(rt, counts, shown);
    SortBySorted(shown, before);
    CountsAreOccurrences(texts);
  }
}
