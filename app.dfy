/** js/app.js: deriving the processed item table from the raw entries, the
    entry form shared by the add, edit and discard actions, the add action of
    this file and its quick buttons (the first six distinct item texts). */
module App {
  import opened JsString
  import opened JsArray

  /** A stored entry: a time and a comma-separated list of foods or symptoms.
      The time is kept abstract: the form stores the `datetime-local` string,
      the correlation engine reads it as milliseconds. */
  datatype RawEntry<T> = RawEntry(time: T, text: string)

  /** One row of `processedTable`: a single food or symptom and its entry's time. */
  datatype Item<T> = Item(text: string, time: T)

  /** `filter(Boolean)` on strings: the empty string is falsy. */
  predicate NonEmpty(s: string) {
    s != []
  }

  function TrimAll(parts: seq<string>): seq<string> {
    Map(parts, Trim)
  }

  /** `text.split(',').map(s => s.trim()).filter(Boolean)`. */
  function Pieces(text: string): seq<string> {
    Filter(TrimAll(Split(text, ',')), NonEmpty)
  }

  /** Each piece is a comma part of the text, trimmed, that is non-empty:
      it has no comma and no white space at either end. */
  lemma {:induction false} PieceShape(text: string, i: nat)
    requires i < |Pieces(text)|
    ensures var p := Pieces(text)[i];
      && p != [] && ',' !in p && Trim(p) == p
      && !IsWhiteSpace(p[0]) && !IsWhiteSpace(p[|p| - 1])
  {
    var parts := Split(text, ',');
    var p := Pieces(text)[i];
    assert NonEmpty(p);
    FilterKeeps(TrimAll(parts), NonEmpty, p);
    var j :| 0 <= j < |parts| && TrimAll(parts)[j] == p;
    assert p == Trim(parts[j]);
    SplitShape(text, ',');
    assert parts[j] in parts;
    TrimmedPartShape(parts[j]);
  }

  /** A comma-free part, trimmed, is comma-free, its own trim, and has no
      white space at either end when non-empty. */
  lemma {:induction false} TrimmedPartShape(part: string)
    requires ',' !in part
    ensures var p := Trim(part);
      && ',' !in p && Trim(p) == p
      && (p != [] ==> !IsWhiteSpace(p[0]) && !IsWhiteSpace(p[|p| - 1]))
  {
    TrimKeepsAbsent(part, ',');
    var w1, w2 := TrimDecompose(part);
    TrimIdempotent(part);
  }

  /** The pieces are the non-empty trimmed comma parts, in their order. */
  lemma {:induction false} PiecesShape(text: string)
    ensures forall i :: 0 <= i < |Pieces(text)| ==>
      var p := Pieces(text)[i];
      && p != [] && ',' !in p && Trim(p) == p
      && !IsWhiteSpace(p[0]) && !IsWhiteSpace(p[|p| - 1])
    ensures IsSubsequence(Pieces(text), TrimAll(Split(text, ',')))
  {
    forall i | 0 <= i < |Pieces(text)|
      ensures var p := Pieces(text)[i];
        && p != [] && ',' !in p && Trim(p) == p
        && !IsWhiteSpace(p[0]) && !IsWhiteSpace(p[|p| - 1])
    {
      PieceShape(text, i);
    }
    FilterIsSubsequence(TrimAll(Split(text, ',')), NonEmpty);
  }

  predicate CommaOrWhiteSpace(c: char) {
    c == ',' || IsWhiteSpace(c)
  }

  /** An entry yields no item exactly when its text holds only commas and white space. */
  lemma {:induction false} PiecesEmpty(text: string)
    ensures Pieces(text) == [] <==> forall i :: 0 <= i < |text| ==> CommaOrWhiteSpace(text[i])
  {
    if forall i :: 0 <= i < |text| ==> CommaOrWhiteSpace(text[i]) {
      PiecesOfBlank(text);
    } else {
      var i :| 0 <= i < |text| && !CommaOrWhiteSpace(text[i]);
      PiecesOfNonBlank(text, i);
    }
  }

  lemma {:induction false} PiecesOfBlank(text: string)
    requires forall i :: 0 <= i < |text| ==> CommaOrWhiteSpace(text[i])
    ensures Pieces(text) == []
  {
    var parts := Split(text, ',');
    var trimmed := TrimAll(parts);
    SplitShape(text, ',');
    forall j | 0 <= j < |trimmed| ensures !NonEmpty(trimmed[j]) {
      BlankPart(text, j);
      TrimBlank(parts[j]);
    }
    FilterNone(trimmed, NonEmpty);
  }

  /** In a text of commas and white space, every comma part is blank. */
  lemma {:induction false} BlankPart(text: string, j: nat)
    requires forall i :: 0 <= i < |text| ==> CommaOrWhiteSpace(text[i])
    requires j < |Split(text, ',')|
    ensures AllWhiteSpace(Split(text, ',')[j])
  {
    var parts := Split(text, ',');
    SplitShape(text, ',');
    PartChars(parts, ',', j);
    assert parts[j] in parts;
    forall k | 0 <= k < |parts[j]| ensures IsWhiteSpace(parts[j][k]) {
      var c := parts[j][k];
      assert c in parts[j];
      assert c in text;
      var i :| 0 <= i < |text| && text[i] == c;
      assert CommaOrWhiteSpace(text[i]);
    }
  }

  lemma {:induction false} PiecesOfNonBlank(text: string, i: nat)
    requires i < |text| && !CommaOrWhiteSpace(text[i])
    ensures Pieces(text) != []
  {
    var parts := Split(text, ',');
    var trimmed := TrimAll(parts);
    var c := text[i];
    SplitShape(text, ',');
    assert c in Join(parts, ',');
    JoinChars(parts, ',', c);
    var j :| 0 <= j < |parts| && c in parts[j];
    var k :| 0 <= k < |parts[j]| && parts[j][k] == c;
    TrimBlank(parts[j]);
    assert trimmed[j] in trimmed;
    FilterKeeps(trimmed, NonEmpty, trimmed[j]);
  }

  /** White space around a text does not change its pieces. */
  lemma {:induction false} PiecesPadded(w1: string, s: string, w2: string)
    requires AllWhiteSpace(w1) && AllWhiteSpace(w2)
    ensures Pieces(w1 + s + w2) == Pieces(s)
  {
    assert ',' !in w1 && ',' !in w2 by {
      assert !IsWhiteSpace(',');
    }
    var p := Split(s, ',');
    var q := [w1 + p[0]] + p[1..];
    var n := |q| - 1;
    SplitPadded(w1, s, w2, ',');
    PaddedPartsTrim(w1, p, w2);
    assert Split(w1 + s + w2, ',') == q[..n] + [q[n] + w2];
  }

  /** Padding the first part in front and the last part behind changes none
      of the trimmed parts. */
  lemma {:induction false} PaddedPartsTrim(w1: string, p: seq<string>, w2: string)
    requires AllWhiteSpace(w1) && AllWhiteSpace(w2) && p != []
    ensures var q := [w1 + p[0]] + p[1..];
      var n := |q| - 1;
      TrimAll(q[..n] + [q[n] + w2]) == TrimAll(p)
  {
    var q := [w1 + p[0]] + p[1..];
    var n := |q| - 1;
    var r := q[..n] + [q[n] + w2];
    forall k | 0 <= k < |r| ensures Trim(r[k]) == Trim(p[k]) {
      if k == 0 {
        TrimSkipsLeadingWhiteSpace(w1, p[0]);
      }
      if k == n {
        TrimSkipsTrailingWhiteSpace(q[n], w2);
        if n == 0 {
          TrimSkipsLeadingWhiteSpace(w1, p[0]);
        }
      }
    }
    assert TrimAll(r) == TrimAll(p);
  }

  /** Two texts joined by a comma yield the pieces of the first, then those of the second. */
  lemma {:induction false} PiecesConcat(a: string, b: string)
    ensures Pieces(a + [','] + b) == Pieces(a) + Pieces(b)
  {
    SplitConcat(a, b, ',');
    var pa := Split(a, ',');
    var pb := Split(b, ',');
    MapConcat(pa, pb, Trim);
    FilterConcat(TrimAll(pa), TrimAll(pb), NonEmpty);
  }

  /** `t.charAt(0).toUpperCase() + t.slice(1)`. */
  function Capitalize(rt: Runtime, p: string): string {
    var k := if p == [] then 0 else 1;
    rt.toUpperCase(p[..k]) + p[k..]
  }

  /** On a non-empty piece: the first character upper-cased, the rest unchanged. */
  lemma {:induction false} CapitalizeFirst(rt: Runtime, p: string)
    requires p != []
    ensures Capitalize(rt, p) == rt.toUpperCase([p[0]]) + p[1..]
  {
    assert p[..1] == [p[0]];
  }

  /** The items of one entry: one per piece, in order, all at the entry's time. */
  function EntryItems<T>(rt: Runtime, e: RawEntry<T>): (r: seq<Item<T>>)
    ensures |r| == |Pieces(e.text)|
  {
    PieceItems(rt, Pieces(e.text), e.time)
  }

  function PieceItems<T>(rt: Runtime, ps: seq<string>, time: T): (r: seq<Item<T>>)
    ensures |r| == |ps|
    ensures forall i :: 0 <= i < |r| ==> r[i] == Item(Capitalize(rt, ps[i]), time)
  {
    if ps == [] then [] else [Item(Capitalize(rt, ps[0]), time)] + PieceItems(rt, ps[1..], time)
  }

  /** `raw.flatMap(...)` in `buildProcessed`: the items of every entry, entry after entry. */
  function BuildProcessed<T>(rt: Runtime, raw: seq<RawEntry<T>>): seq<Item<T>> {
    FlatMap(raw, e => EntryItems(rt, e))
  }

  /** Each entry contributes, in place, one item per non-empty trimmed piece of
      its text: the piece with its first character upper-cased, at the entry's time. */
  lemma {:induction false} BuildProcessedEntry<T>(rt: Runtime, raw: seq<RawEntry<T>>, e: nat)
    requires e < |raw|
    ensures BuildProcessed(rt, raw) ==
      BuildProcessed(rt, raw[..e]) + EntryItems(rt, raw[e]) + BuildProcessed(rt, raw[e + 1..])
  {
    FlatMapAt(raw, e, e => EntryItems(rt, e));
  }

  /** The items of an entry are its pieces, first character upper-cased, at the entry's time. */
  lemma {:induction false} EntryItemsShape<T>(rt: Runtime, e: RawEntry<T>)
    ensures var items := EntryItems(rt, e);
      var ps := Pieces(e.text);
      forall i :: 0 <= i < |items| ==>
        && items[i].time == e.time
        && items[i].text == rt.toUpperCase([ps[i][0]]) + ps[i][1..]
  {
    var items := EntryItems(rt, e);
    var ps := Pieces(e.text);
    forall i | 0 <= i < |items|
      ensures items[i].time == e.time && items[i].text == rt.toUpperCase([ps[i][0]]) + ps[i][1..]
    {
      assert NonEmpty(ps[i]);
      CapitalizeFirst(rt, ps[i]);
    }
  }

  /** `toUpperCase` turns a non-empty string into a non-empty one and
      introduces no comma, as the Unicode case mappings do. */
  ghost predicate UpperCaseKeepsShape(rt: Runtime) {
    forall s :: s != [] ==> rt.toUpperCase(s) != [] && (',' in rt.toUpperCase(s) ==> ',' in s)
  }

  lemma {:induction false} CapitalizeShape(rt: Runtime, p: string)
    requires UpperCaseKeepsShape(rt) && p != [] && ',' !in p
    ensures Capitalize(rt, p) != [] && ',' !in Capitalize(rt, p)
  {
    CapitalizeFirst(rt, p);
    assert [p[0]] != [] && ',' !in [p[0]];
    assert rt.toUpperCase([p[0]]) != [];
    assert ',' !in p[1..] by {
      forall c | c in p[1..] ensures c != ',' {
        assert c in p;
      }
    }
  }

  lemma {:induction false} EntryTextsShape<T>(rt: Runtime, e: RawEntry<T>)
    requires UpperCaseKeepsShape(rt)
    ensures WellFormedTexts(EntryItems(rt, e))
  {
    var items := EntryItems(rt, e);
    var ps := Pieces(e.text);
    forall i | 0 <= i < |items| ensures items[i].text != [] && ',' !in items[i].text {
      PieceShape(e.text, i);
      CapitalizeShape(rt, ps[i]);
    }
  }

  /** Every text is non-empty and free of commas. */
  ghost predicate WellFormedTexts<T>(items: seq<Item<T>>) {
    forall k :: 0 <= k < |items| ==> items[k].text != [] && ',' !in items[k].text
  }

  lemma WellFormedTextsConcat<T>(a: seq<Item<T>>, b: seq<Item<T>>)
    requires WellFormedTexts(a) && WellFormedTexts(b)
    ensures WellFormedTexts(a + b)
  {
    forall k | 0 <= k < |a + b| ensures (a + b)[k].text != [] && ',' !in (a + b)[k].text {
      if k < |a| {
        assert (a + b)[k] == a[k];
      } else {
        assert (a + b)[k] == b[k - |a|];
      }
    }
  }

  /** No derived text is empty or contains a comma. */
  lemma {:induction false} ItemTextsShape<T>(rt: Runtime, raw: seq<RawEntry<T>>)
    requires UpperCaseKeepsShape(rt)
    ensures WellFormedTexts(BuildProcessed(rt, raw))
  {
    if raw != [] {
      var n := |raw| - 1;
      ItemTextsShape(rt, raw[..n]);
      EntryTextsShape(rt, raw[n]);
      var a: seq<Item<T>> := BuildProcessed(rt, raw[..n]);
      var b: seq<Item<T>> := EntryItems(rt, raw[n]);
      assert BuildProcessed(rt, raw) == a + b;
      WellFormedTextsConcat(a, b);
    }
  }

  /** `items.map(e => e.text)`. */
  function Texts<T>(items: seq<Item<T>>): (r: seq<string>)
    ensures |r| == |items|
    ensures forall i :: 0 <= i < |items| ==> r[i] == items[i].text
  {
    Map(items, (e: Item<T>) => e.text)
  }

  /** `[...new Set(processedTable.map(e => e.text))].slice(0, 6)`. */
  function QuickTexts<T>(items: seq<Item<T>>): (r: seq<string>)
    ensures |r| <= 6 && NoDuplicates(r)
    ensures forall i :: 0 <= i < |r| ==> r[i] in Texts(items)
  {
    var d := Distinct(Texts(items));
    if |d| <= 6 then d else d[..6]
  }

  /** The quick texts are in order of first occurrence, and any text left out
      first occurs after all six that were shown. */
  lemma {:induction false} QuickTextsFirstSeen<T>(items: seq<Item<T>>)
    ensures var r := QuickTexts(items); var texts := Texts(items);
      && (forall i, j :: 0 <= i < j < |r| ==> IndexOf(texts, r[i]) < IndexOf(texts, r[j]))
      && (forall t :: t in texts ==> (t in r ||
            (|r| == 6 && forall i :: 0 <= i < 6 ==> IndexOf(texts, r[i]) < IndexOf(texts, t))))
  {
    var texts := Texts(items);
    var d := Distinct(texts);
    var r := QuickTexts(items);
    DistinctFirstOccurrenceOrder(texts);
    assert forall i :: 0 <= i < |r| ==> r[i] == d[i];
    forall t | t in texts
      ensures t in r || (|r| == 6 && forall i :: 0 <= i < 6 ==> IndexOf(texts, r[i]) < IndexOf(texts, t))
    {
      var k :| 0 <= k < |texts| && texts[k] == t;
      assert t in d;
      var p :| 0 <= p < |d| && d[p] == t;
      if p < |r| {
        assert r[p] == t;
      }
    }
  }

  /** A quick button's click: `current ? `${current}, ${t}` : t` with `current` trimmed. */
  function AppendQuick(current: string, t: string): string {
    var c := Trim(current);
    if c != [] then c + ", " + t else t
  }

  /** Clicking a quick button adds exactly the pieces of its text after the
      pieces already typed. */
  lemma {:induction false} AppendQuickPieces(current: string, t: string)
    ensures Pieces(AppendQuick(current, t)) == Pieces(current) + Pieces(t)
  {
    if Trim(current) == [] {
      AppendQuickBlank(current, t);
    } else {
      AppendQuickNonBlank(current, t);
    }
  }

  lemma {:induction false} AppendQuickBlank(current: string, t: string)
    requires Trim(current) == []
    ensures Pieces(AppendQuick(current, t)) == Pieces(current) + Pieces(t)
  {
    TrimBlank(current);
    forall i | 0 <= i < |current|
      ensures CommaOrWhiteSpace(current[i])
    {
      assert IsWhiteSpace(current[i]);
    }
    PiecesOfBlank(current);
    assert AppendQuick(current, t) == t;
  }

  lemma {:induction false} AppendQuickNonBlank(current: string, t: string)
    requires Trim(current) != []
    ensures Pieces(AppendQuick(current, t)) == Pieces(current) + Pieces(t)
  {
    var c := Trim(current);
    var rest := " " + t;
    AppendQuickJoins(current, t);
    PiecesConcat(c, rest);
    PiecesOfTrim(current);
    PiecesAfterSpace(t);
  }

  lemma {:induction false} PiecesAfterSpace(t: string)
    ensures Pieces(" " + t) == Pieces(t)
  {
    assert AllWhiteSpace(" ");
    PiecesPadded(" ", t, "");
    assert " " + t + "" == " " + t;
  }

  lemma {:induction false} AppendQuickJoins(current: string, t: string)
    requires Trim(current) != []
    ensures AppendQuick(current, t) == Trim(current) + [','] + (" " + t)
  {
    var c := Trim(current);
    assert ", " + t == [','] + (" " + t);
    assert c + ", " + t == c + (", " + t);
  }

  /** Trimming a text does not change its pieces. */
  lemma {:induction false} PiecesOfTrim(s: string)
    ensures Pieces(Trim(s)) == Pieces(s)
  {
    var w1, w2 := TrimDecompose(s);
    PiecesPadded(w1, Trim(s), w2);
  }

  // ----------------------------------------------------------- entry form

  /** A request to the entry store (`addRaw`, `updateRaw`). */
  datatype StoreWrite =
    | AddRaw(entry: RawEntry<string>)
    | UpdateRaw(key: int, entry: RawEntry<string>)

  /** The add-entry panel: the date-time and text fields, the key of the entry
      being edited, the primary button's label, whether the discard button is
      hidden, and the writes sent to the store so far. */
  class EntryForm {
    var dt: string
    var text: string
    var editingKey: Option<int>
    var saveLabel: string
    var discardHidden: bool
    var writes: seq<StoreWrite>

    /** The panel as loaded: date set to now, nothing being edited. */
    constructor (now: string)
      ensures dt == now && text == "" && editingKey == None
      ensures saveLabel == "Save" && discardHidden && writes == []
      ensures Consistent()
    {
      dt := now;
      text := "";
      editingKey := None;
      saveLabel := "Save";
      discardHidden := true;
      writes := [];
    }

    /** The button label and the discard button follow the editing mode. */
    predicate Consistent()
      reads this
    {
      && (editingKey.None? ==> saveLabel == "Save" && discardHidden)
      && (editingKey.Some? ==> saveLabel == "Update" && !discardHidden)
    }
  }

  /** `addEntry` of js/app.js: both fields must be non-empty (the text is not
      trimmed); the entry is added and the text field cleared. */
  method AddEntry(f: EntryForm)
    modifies f
    ensures old(f.dt) == "" || old(f.text) == "" ==>
      f.writes == old(f.writes) && f.text == old(f.text)
    ensures old(f.dt) != "" && old(f.text) != "" ==>
      f.writes == old(f.writes) + [AddRaw(RawEntry(old(f.dt), old(f.text)))] && f.text == ""
    ensures f.dt == old(f.dt) && f.editingKey == old(f.editingKey)
    ensures f.saveLabel == old(f.saveLabel) && f.discardHidden == old(f.discardHidden)
  {
    var dt := f.dt;
    var text := f.text;
    if dt == "" || text == "" {
      return;
    }
    f.writes := f.writes + [AddRaw(RawEntry(dt, text))];
    f.text := "";
  }

  /** A quick button of js/app.js: the form's text becomes `AppendQuick(text, t)`. */
  method QuickButtonClick(f: EntryForm, t: string)
    modifies f`text
    ensures f.text == AppendQuick(old(f.text), t)
    ensures Pieces(f.text) == Pieces(old(f.text)) + Pieces(t)
  {
    var current := Trim(f.text);
    if current != [] {
      f.text := current + ", " + t;
    } else {
      f.text := t;
    }
    AppendQuickPieces(old(f.text), t);
  }
}
