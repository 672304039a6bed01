/** js/table.js: the search over raw entries, the status line under the
    table, and the edit and discard actions of the add panel. */
module Table {
  import opened JsString
  import opened JsArray
  import opened App

  // ---------------------------------------------------------------- search

  /** `normalizeText` of js/table.js: trimmed, lower-cased, decomposed (NFD),
      and stripped of every combining mark. */
  function NormalizeText(rt: Runtime, s: string): (r: string)
    ensures forall i :: 0 <= i < |r| ==> !IsCombiningMark(r[i])
  {
    StripCombiningMarks(rt.nfd(rt.toLowerCase(Trim(s))))
  }

  /** White space around a text makes no difference to its normal form. */
  lemma NormalizeTextIgnoresPadding(rt: Runtime, w1: string, s: string, w2: string)
    requires AllWhiteSpace(w1) && AllWhiteSpace(w2)
    ensures NormalizeText(rt, w1 + s + w2) == NormalizeText(rt, s)
  {
    TrimPadded(w1, s, w2);
  }

  /** A blank text normalises to the empty string. */
  lemma NormalizeBlank(rt: Runtime, s: string)
    requires KeepsEmpty(rt) && AllWhiteSpace(s)
    ensures NormalizeText(rt, s) == ""
  {
    TrimBlank(s);
  }

  /** The test inside `filterEntries`: an entry is rejected when the query is
      non-empty and the entry's normalised text does not contain it. */
  function Matcher<T>(rt: Runtime, normQuery: string): RawEntry<T> -> bool {
    (e: RawEntry<T>) => !(normQuery != "" && !Includes(NormalizeText(rt, e.text), normQuery))
  }

  /** `filterEntries` of js/table.js. */
  function FilterEntries<T>(rt: Runtime, entries: seq<RawEntry<T>>, query: string): seq<RawEntry<T>> {
    Filter(entries, Matcher(rt, NormalizeText(rt, query)))
  }

  /** The result is a subsequence of the entries: nothing is added or reordered. */
  lemma FilterEntriesSubsequence<T>(rt: Runtime, entries: seq<RawEntry<T>>, query: string)
    ensures IsSubsequence(FilterEntries(rt, entries, query), entries)
  {
    FilterIsSubsequence(entries, Matcher(rt, NormalizeText(rt, query)));
  }

  /** An entry is kept exactly when the normalised query is empty or occurs in
      the entry's normalised text. */
  lemma FilterEntriesKeeps<T>(rt: Runtime, entries: seq<RawEntry<T>>, query: string)
    ensures var q := NormalizeText(rt, query);
      forall e :: e in FilterEntries(rt, entries, query) <==>
        e in entries && (q == "" || Includes(NormalizeText(rt, e.text), q))
  {
    var q := NormalizeText(rt, query);
    forall e ensures e in FilterEntries(rt, entries, query) <==> e in entries && Matcher(rt, q)(e) {
      FilterKeeps(entries, Matcher(rt, q), e);
    }
  }

  /** An empty normalised query keeps every entry. */
  lemma FilterEntriesEmptyQuery<T>(rt: Runtime, entries: seq<RawEntry<T>>, query: string)
    requires NormalizeText(rt, query) == ""
    ensures FilterEntries(rt, entries, query) == entries
  {
    FilterAll(entries, Matcher(rt, NormalizeText(rt, query)));
  }

  /** In particular a blank query keeps every entry. */
  lemma FilterEntriesBlankQuery<T>(rt: Runtime, entries: seq<RawEntry<T>>, query: string)
    requires KeepsEmpty(rt) && AllWhiteSpace(query)
    ensures FilterEntries(rt, entries, query) == entries
  {
    NormalizeBlank(rt, query);
    FilterEntriesEmptyQuery(rt, entries, query);
  }

  /** Searching the result again with the same query changes nothing. */
  lemma FilterEntriesIdempotent<T>(rt: Runtime, entries: seq<RawEntry<T>>, query: string)
    ensures FilterEntries(rt, FilterEntries(rt, entries, query), query) == FilterEntries(rt, entries, query)
  {
    FilterIdempotent(entries, Matcher(rt, NormalizeText(rt, query)));
  }

  // ----------------------------------------------------------- status line

  /** The message `updateStatus` of js/table.js writes for `shown` matching
      entries out of `total`, which the table passes as the number of stored
      entries and other callers may omit. */
  function StatusMessage(shown: nat, total: Option<nat>): string {
    if shown == 0 then
      if total.Some? && total.value != 0 && total.value > 0 then "No entries match filter" else "No entries"
    else if total.Some? && shown != total.value then
      "Showing " + IntToString(shown) + " of " + IntToString(total.value) + " entries."
    else
      "Showing " + IntToString(shown) + " entries."
  }

  /** With nothing to show, the message says whether there are entries that
      the search hides or no entries at all. */
  lemma StatusMessageEmpty(total: Option<nat>)
    ensures StatusMessage(0, total) == "No entries match filter" <==> total.Some? && total.value > 0
    ensures StatusMessage(0, total) == "No entries" <==> total.None? || total.value == 0
  {
  }

  /** Otherwise the message starts with "Showing ", from which `parseInt`
      reads back the number shown; it then either ends with " entries." or,
      when the total is known and differs, goes on with " of " and the total,
      which `parseInt` reads back too. */
  lemma {:induction false} StatusMessageReports(shown: nat, total: Option<nat>)
    requires shown > 0
    ensures var msg := StatusMessage(shown, total);
      && StartsWith(msg, "Showing ")
      && ParseInt(msg[8..]) == Some(shown as int)
      && var rest := msg[8 + |IntToString(shown)|..];
      if total.Some? && total.value != shown then
        && StartsWith(rest, " of ")
        && ParseInt(rest[4..]) == Some(total.value as int)
        && rest[4 + |IntToString(total.value)|..] == " entries."
      else
        rest == " entries."
  {
    var n := IntToString(shown);
    if total.Some? && total.value != shown {
      var m := IntToString(total.value);
      var rest := " of " + m + " entries.";
      assert StatusMessage(shown, total) == "Showing " + n + rest;
      ShowingReadsBack(shown, rest);
      OfReadsBack(total.value);
    } else {
      ShowingReadsBack(shown, " entries.");
    }
  }

  /** `parseInt` reads the number back after "Showing ". */
  lemma {:induction false} ShowingReadsBack(shown: nat, rest: string)
    requires rest != [] && rest[0] == ' '
    ensures var msg := "Showing " + IntToString(shown) + rest;
      && StartsWith(msg, "Showing ")
      && ParseInt(msg[8..]) == Some(shown as int)
      && msg[8 + |IntToString(shown)|..] == rest
  {
    var n := IntToString(shown);
    var msg := "Showing " + n + rest;
    assert msg[8..] == n + rest;
    ParseIntPrefix(shown, rest);
  }

  /** `parseInt` reads the total back after " of ". */
  lemma {:induction false} OfReadsBack(total: nat)
    ensures var rest := " of " + IntToString(total) + " entries.";
      && StartsWith(rest, " of ")
      && ParseInt(rest[4..]) == Some(total as int)
      && rest[4 + |IntToString(total)|..] == " entries."
  {
    var m := IntToString(total);
    var rest := " of " + m + " entries.";
    assert rest[4..] == m + " entries.";
    ParseIntPrefix(total, " entries.");
  }

  /** The element the message is written to. */
  class StatusLine {
    var text: string

    constructor ()
      ensures text == ""
    {
      text := "";
    }
  }

  /** `updateStatus` of js/table.js. */
  method UpdateStatus(status: StatusLine, shown: nat, total: Option<nat>)
    modifies status
    ensures status.text == StatusMessage(shown, total)
  {
    if shown == 0 {
      if total.Some? && total.value != 0 && total.value > 0 {
        status.text := "No entries match filter";
      } else {
        status.text := "No entries";
      }
      return;
    }
    var statusText := "";
    if total.Some? && shown != total.value {
      statusText := "Showing " + IntToString(shown) + " of " + IntToString(total.value) + " entries.";
    } else {
      statusText := "Showing " + IntToString(shown) + " entries.";
    }
    status.text := statusText;
  }

  // ------------------------------------------------------- edit and discard

  /** `s.slice(0, n)`. */
  function Prefix(s: string, n: nat): string {
    if |s| <= n then s else s[..n]
  }

  /** `editEntry` of js/table.js, given what the store returned for `key`:
      with no entry nothing happens; otherwise the form holds the entry's
      time, cut to the `datetime-local` length of 16 characters, and its text,
      and the panel switches to editing that key. */
  method EditEntry(f: EntryForm, key: int, found: Option<RawEntry<string>>)
    modifies f
    ensures found.None? ==> unchanged(f)
    ensures found.Some? ==>
      && f.editingKey == Some(key)
      && f.dt == Prefix(found.value.time, 16) && f.text == found.value.text
      && f.saveLabel == "Update" && !f.discardHidden
      && f.writes == old(f.writes)
    ensures old(f.Consistent()) || found.Some? ==> f.Consistent()
  {
    if found.None? {
      return;
    }
    var entry := found.value;
    f.editingKey := Some(key);
    f.dt := Prefix(entry.time, 16);
    f.text := entry.text;
    f.saveLabel := "Update";
    f.discardHidden := false;
  }

  /** `discardEdit` of js/table.js: whatever the state, editing ends, the text
      is cleared and the date reset to `now`. Nothing is written. */
  method DiscardEdit(f: EntryForm, now: string)
    modifies f
    ensures f.editingKey == None && f.text == "" && f.dt == now
    ensures f.saveLabel == "Save" && f.discardHidden
    ensures f.writes == old(f.writes)
    ensures f.Consistent()
  {
    f.editingKey := None;
    f.text := "";
    f.dt := now;
    f.saveLabel := "Save";
    f.discardHidden := true;
  }
}
