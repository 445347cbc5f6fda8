/** The command palette: ranking of menu commands against a typed query, the
    history of recently run commands, and keyboard navigation in the list. */
module Palette {
  import opened Wrappers
  import opened Text
  import opened Ordering

  // ---------------------------------------------------------------------
  // Data model

  /** A menu command as the palette sees it.  `commandLabel` and `parentLabel` are the
      raw labels that identify the command in the history; the display labels
      are what the list shows and what the query is matched against; `shortcut`
      is the accelerator as stored, before conversion to its display form. */
  datatype EntryMetadata = EntryMetadata(
    commandLabel: string,
    parentLabel: string,
    displayLabel: string,
    displayParentLabel: string,
    shortcut: string)

  /** A command plus its recentness: a history position, SeparatorRank for the
      separator row, NonRecent otherwise. */
  datatype RecentPlusEntry = RecentPlusEntry(recentness: int, entry: EntryMetadata)

  /** (label, parent label): how the history names a command. */
  type Pair = (string, string)

  /** A fuzzy score as an integer percentage. */
  type Percent = x: int | 0 <= x <= 100

  const NonRecent := 10000
  const SeparatorRank := 1000
  const PrefixMatch := 100
  const SubstrMatch := 90
  const MenuMatch := 80
  const NumHistory := 5

  const SepChar: char := '―'

  function Repeat(c: char, n: nat): (s: string)
    ensures |s| == n && forall i :: 0 <= i < n ==> s[i] == c
  {
    seq(n, _ => c)
  }

  /** The grey separator row between recent and other commands. */
  const SeparatorMeta := EntryMetadata(Repeat(SepChar, 150), Repeat(SepChar, 30),
                                       Repeat(SepChar, 150), Repeat(SepChar, 30), Repeat(SepChar, 30))
  const SeparatorEntry := RecentPlusEntry(SeparatorRank, SeparatorMeta)
  const SeparatorPair: Pair := (SeparatorMeta.commandLabel, SeparatorMeta.parentLabel)

  predicate IsSeparator(e: RecentPlusEntry) {
    e.recentness == SeparatorRank
  }

  predicate Matches(e: RecentPlusEntry, p: Pair) {
    e.entry.commandLabel == p.0 && e.entry.parentLabel == p.1
  }

  // ---------------------------------------------------------------------
  // Scoring and the sort key

  /** The search text: the query lower-cased and stripped. */
  function SearchText(query: string): string {
    Strip(Lower(query))
  }

  /** How well the search text matches a command: label prefix, label substring,
      menu prefix, or else the fuzzy score of "menu label". */
  function Score(search: string, e: EntryMetadata, fuzzy: (string, string) -> Percent): Percent {
    var labelLower := Lower(e.displayLabel);
    var menu := Lower(e.displayParentLabel);
    if StartsWith(labelLower, search) then PrefixMatch
    else if Contains(labelLower, search) then SubstrMatch
    else if StartsWith(menu, search) then MenuMatch
    else fuzzy(search, menu + " " + labelLower)
  }

  /** 0: recent and a good match; 1: the separator; 2: everything else. */
  function Band(recentness: int, score: int): int {
    if recentness < SeparatorRank then (if score >= MenuMatch then 0 else 2)
    else if recentness == SeparatorRank then 1
    else 2
  }

  datatype SortKey = SortKey(band: int, negScore: int, recentness: int, text: string)

  function Key(search: string, fuzzy: (string, string) -> Percent, e: RecentPlusEntry): SortKey {
    var score: int := Score(search, e.entry, fuzzy);
    SortKey(Band(e.recentness, score), -score, e.recentness, Lower(e.entry.displayLabel))
  }

  /** Python's tuple comparison on the sort key. */
  predicate KeyLt(x: SortKey, y: SortKey) {
    || x.band < y.band
    || (x.band == y.band && x.negScore < y.negScore)
    || (x.band == y.band && x.negScore == y.negScore && x.recentness < y.recentness)
    || (x.band == y.band && x.negScore == y.negScore && x.recentness == y.recentness
        && StrLt(x.text, y.text))
  }

  /** The order `list.sort(key=recent_key)` sorts by. */
  function Before(search: string, fuzzy: (string, string) -> Percent): (RecentPlusEntry, RecentPlusEntry) -> bool {
    (a: RecentPlusEntry, b: RecentPlusEntry) => KeyLt(Key(search, fuzzy, a), Key(search, fuzzy, b))
  }

  // ---------------------------------------------------------------------
  // Building the list

  function Fresh(commands: seq<EntryMetadata>): (es: seq<RecentPlusEntry>)
    ensures |es| == |commands|
  {
    seq(|commands|, i requires 0 <= i < |commands| => RecentPlusEntry(NonRecent, commands[i]))
  }

  /** The separator (only when there is a history) followed by every command as non-recent. */
  function Initial(commands: seq<EntryMetadata>, history: seq<Pair>): seq<RecentPlusEntry> {
    (if |history| > 0 then [SeparatorEntry] else []) + Fresh(commands)
  }

  /** Index of the first entry at or after j that matches p, |es| if none. */
  function FirstMatchFrom(es: seq<RecentPlusEntry>, p: Pair, j: nat): (k: nat)
    requires j <= |es|
    ensures j <= k <= |es|
    ensures k < |es| ==> Matches(es[k], p)
    ensures forall i :: j <= i < k ==> !Matches(es[i], p)
    decreases |es| - j
  {
    if j == |es| then j
    else if Matches(es[j], p) then j
    else FirstMatchFrom(es, p, j + 1)
  }

  /** Gives the first entry matching p the recentness r. */
  function MarkFirst(es: seq<RecentPlusEntry>, p: Pair, r: int): seq<RecentPlusEntry> {
    var k := FirstMatchFrom(es, p, 0);
    if k < |es| then es[k := RecentPlusEntry(r, es[k].entry)] else es
  }

  /** Marks the first match of each history pair from position i on with its position. */
  function AssignFrom(es: seq<RecentPlusEntry>, history: seq<Pair>, i: nat): seq<RecentPlusEntry>
    decreases |history| - i
  {
    if i >= |history| then es
    else AssignFrom(MarkFirst(es, history[i], i), history, i + 1)
  }

  function Assigned(commands: seq<EntryMetadata>, history: seq<Pair>): seq<RecentPlusEntry> {
    AssignFrom(Initial(commands, history), history, 0)
  }

  function SortedEntries(commands: seq<EntryMetadata>, history: seq<Pair>, query: string,
                         fuzzy: (string, string) -> Percent): seq<RecentPlusEntry> {
    SortBy(Assigned(commands, history), Before(SearchText(query), fuzzy))
  }

  function DropLeadingSeparator(es: seq<RecentPlusEntry>): seq<RecentPlusEntry> {
    if |es| > 0 && IsSeparator(es[0]) then es[1..] else es
  }

  /** The list the palette shows for a query. */
  function Ranking(commands: seq<EntryMetadata>, history: seq<Pair>, query: string,
                   fuzzy: (string, string) -> Percent): seq<RecentPlusEntry> {
    DropLeadingSeparator(SortedEntries(commands, history, query, fuzzy))
  }

  /** One row of the list widget; the shortcut column holds the stored accelerator. */
  datatype Row = Row(text: string, shortcut: string, menu: string, separatorTag: bool)

  function RowOf(e: RecentPlusEntry): Row {
    Row(e.entry.displayLabel, e.entry.shortcut, e.entry.displayParentLabel, IsSeparator(e))
  }

  function Rows(es: seq<RecentPlusEntry>): (rows: seq<Row>)
    ensures |rows| == |es|
  {
    seq(|es|, i requires 0 <= i < |es| => RowOf(es[i]))
  }

  // ---------------------------------------------------------------------
  // History

  /** `list.remove`: drops the first occurrence of p, if any. */
  function RemoveFirst(h: seq<Pair>, p: Pair): (r: seq<Pair>)
    ensures multiset(r) == multiset(h) - multiset{p}
  {
    if h == [] then []
    else if h[0] == p then
      assert h == [h[0]] + h[1..];
      h[1..]
    else
      assert h == [h[0]] + h[1..];
      [h[0]] + RemoveFirst(h[1..], p)
  }

  /** The history after running or editing p: p first, at most NumHistory entries. */
  function Record(h: seq<Pair>, p: Pair): seq<Pair> {
    var moved := [p] + RemoveFirst(h, p);
    if |moved| <= NumHistory then moved else moved[..NumHistory]
  }

  predicate NoDup<T(==)>(s: seq<T>) {
    forall i, j :: 0 <= i < j < |s| ==> s[i] != s[j]
  }

  // ---------------------------------------------------------------------
  // The steps of update_list

  /** The separator (when there is a history), then every command as non-recent. */
  method BuildEntries(commands: seq<EntryMetadata>, history: seq<Pair>) returns (entries: seq<RecentPlusEntry>)
    ensures entries == Initial(commands, history)
  {
    entries := [];
    if |history| > 0 {
      entries := [SeparatorEntry];
    }
    ghost var prefix := entries;
    var i := 0;
    while i < |commands|
      invariant 0 <= i <= |commands|
      invariant entries == prefix + Fresh(commands[..i])
    {
      assert Fresh(commands[..i + 1]) == Fresh(commands[..i]) + [RecentPlusEntry(NonRecent, commands[i])];
      entries := entries + [RecentPlusEntry(NonRecent, commands[i])];
      i := i + 1;
    }
    assert commands[..|commands|] == commands;
  }

  /** Gives the first entry matching p the recentness r; the search stops at it. */
  method MarkFirstMatch(entries: seq<RecentPlusEntry>, p: Pair, r: int) returns (marked: seq<RecentPlusEntry>)
    ensures marked == MarkFirst(entries, p, r)
  {
    marked := entries;
    var j := 0;
    while j < |entries|
      invariant 0 <= j <= |entries|
      invariant FirstMatchFrom(entries, p, j) == FirstMatchFrom(entries, p, 0)
    {
      if entries[j].entry.commandLabel == p.0 && entries[j].entry.parentLabel == p.1 {
        marked := entries[j := RecentPlusEntry(r, entries[j].entry)];
        return;
      }
      j := j + 1;
    }
  }

  /** For each history position r in turn, marks the first entry matching history[r]. */
  method AssignRecentness(entries: seq<RecentPlusEntry>, history: seq<Pair>) returns (ranked: seq<RecentPlusEntry>)
    ensures ranked == AssignFrom(entries, history, 0)
  {
    ranked := entries;
    var r := 0;
    while r < |history|
      invariant 0 <= r <= |history|
      invariant AssignFrom(ranked, history, r) == AssignFrom(entries, history, 0)
    {
      ranked := MarkFirstMatch(ranked, history[r], r);
      r := r + 1;
    }
  }

  /** update_list without the widget: the ranked entries and the rows showing them. */
  method RankCommands(commands: seq<EntryMetadata>, history: seq<Pair>, query: string,
                      fuzzy: (string, string) -> Percent)
    returns (kept: seq<RecentPlusEntry>, rows: seq<Row>)
    ensures kept == Ranking(commands, history, query, fuzzy)
    ensures rows == Rows(kept)
  {
    var search := SearchText(query);
    var entries := BuildEntries(commands, history);
    entries := AssignRecentness(entries, history);
    var sorted := SortBy(entries, Before(search, fuzzy));
    kept, rows := HideLeadingSeparator(sorted);
  }

  /** Builds the list rows from the sorted entries, leaving out a separator at the top. */
  method HideLeadingSeparator(sorted: seq<RecentPlusEntry>) returns (kept: seq<RecentPlusEntry>, rows: seq<Row>)
    ensures kept == DropLeadingSeparator(sorted)
    ensures rows == Rows(kept)
  {
    var hidden := false;
    rows := [];
    var idx := 0;
    while idx < |sorted|
      invariant 0 <= idx <= |sorted|
      invariant hidden <==> (idx > 0 && IsSeparator(sorted[0]))
      invariant rows == Rows(sorted[(if hidden then 1 else 0)..idx])
    {
      var sep := sorted[idx].recentness == SeparatorRank;
      if sep && idx == 0 {
        hidden := true;
      } else {
        ghost var from := if hidden then 1 else 0;
        assert sorted[from..idx + 1] == sorted[from..idx] + [sorted[idx]];
        rows := rows + [RowOf(sorted[idx])];
      }
      idx := idx + 1;
    }
    kept := sorted;
    if hidden {
      kept := sorted[1..];
    }
    assert kept == sorted[(if hidden then 1 else 0)..];
  }

  // ---------------------------------------------------------------------
  // Key events

  /** Modifier bits that stop Return/double-click from running a command:
      Shift, Control, Mod1, Mod4 and the macOS Option bit. */
  const ExecuteBadModifiers: bv32 := 0x0001 | 0x0004 | 0x0008 | 0x0080 | 0x20000
  /** Modifier bits that stop a key typed in the list from reaching the query. */
  const TypingBadModifiers: bv32 := 0x0004 | 0x0008 | 0x0080 | 0x20000

  /** `str.isprintable` on one character. Up to U+03FF it is exact: the
      controls, the C1 range, the no-break space, the soft hyphen and the
      unassigned Greek code points are not printable. Above that it excludes
      the Unicode spaces, the format characters of General Punctuation, the
      ideographic space, the byte order mark and the private use area. */
  predicate PrintableChar(c: char) {
    !(|| c < ' ' || ('\U{7F}' <= c <= '\U{A0}') || c == '\U{AD}'
      || c == '\U{0378}' || c == '\U{0379}' || ('\U{0380}' <= c <= '\U{0383}')
      || c == '\U{038B}' || c == '\U{038D}' || c == '\U{03A2}'
      || c == '\U{1680}' || ('\U{2000}' <= c <= '\U{200F}') || ('\U{2028}' <= c <= '\U{202F}')
      || ('\U{205F}' <= c <= '\U{206F}') || c == '\U{3000}' || c == '\U{FEFF}'
      || ('\U{E000}' <= c <= '\U{F8FF}'))
  }

  predicate Printable(s: string) {
    forall i :: 0 <= i < |s| ==> PrintableChar(s[i])
  }

  datatype Focus = EntryField | ListWidget

  // ---------------------------------------------------------------------
  // The dialog

  class CommandPaletteDialog {
    /** Every command that can appear in the palette. */
    var commands: seq<EntryMetadata>
    /** The fuzzy scorer used when no direct match applies. */
    const fuzzy: (string, string) -> Percent
    /** The stored history preference. */
    var history: seq<Pair>
    /** The text of the search field. */
    var query: string
    var filteredEntries: seq<RecentPlusEntry>
    /** The rows shown in the list, one per filtered entry. */
    var rows: seq<Row>
    /** Index of the selected row. */
    var selection: Option<nat>
    var focus: Focus
    /** False once the dialog has been destroyed. */
    var open: bool

    ghost predicate Valid()
      reads this
    {
      && rows == Rows(filteredEntries)
      && (selection.Some? ==> selection.value < |rows|)
    }

    /** The list is what update_list computes from the current query and history. */
    ghost predicate Synced()
      reads this
    {
      && filteredEntries == Ranking(commands, history, query, fuzzy)
      && selection == (if filteredEntries == [] then None else Some(0))
    }

    constructor (commands: seq<EntryMetadata>, fuzzy: (string, string) -> Percent, history: seq<Pair>)
      ensures Valid() && Synced()
      ensures this.commands == commands && this.fuzzy == fuzzy && this.history == history
      ensures query == [] && focus == EntryField && open
    {
      this.commands := commands;
      this.fuzzy := fuzzy;
      this.history := history;
      query := [];
      filteredEntries := [];
      rows := [];
      selection := None;
      focus := EntryField;
      open := true;
      new;
      UpdateList();
    }

    /** update_list: rebuild and re-sort the list, select its first row. */
    method UpdateList()
      modifies this
      ensures Valid() && Synced()
      ensures commands == old(commands) && history == old(history) && query == old(query)
      ensures focus == old(focus) && open == old(open)
    {
      var kept, newRows := RankCommands(commands, history, query, fuzzy);
      SetList(kept, newRows);
    }

    /** Shows a new list, selecting its first row. */
    method SetList(kept: seq<RecentPlusEntry>, newRows: seq<Row>)
      requires newRows == Rows(kept)
      modifies this
      ensures filteredEntries == kept && rows == newRows && Valid()
      ensures selection == (if kept == [] then None else Some(0))
      ensures commands == old(commands) && history == old(history) && query == old(query)
      ensures focus == old(focus) && open == old(open)
    {
      filteredEntries := kept;
      rows := newRows;
      selection := if |kept| > 0 then Some(0) else None;
    }

    /** get_selected_entry: the selected command, None for no selection or the separator. */
    function SelectedEntry(): (r: Option<EntryMetadata>)
      requires Valid()
      reads this
      ensures r.Some? <==> selection.Some? && !IsSeparator(filteredEntries[selection.value])
      ensures r.Some? ==> r.value == filteredEntries[selection.value].entry
    {
      match selection
      case None => None
      case Some(i) => if rows[i].separatorTag then None else Some(filteredEntries[i].entry)
    }

    /** add_to_history: move the pair to the front of the history and refresh. */
    method AddToHistory(commandLabel: string, parentLabel: string)
      modifies this
      ensures history == Record(old(history), (commandLabel, parentLabel))
      ensures commands == old(commands) && Valid() && Synced()
      ensures query == old(query) && focus == old(focus) && open == old(open)
    {
      history := Record(history, (commandLabel, parentLabel));
      UpdateList();
    }

    /** execute_command: returns the command to run; the dialog closes first. */
    method ExecuteCommand(state: Option<bv32>) returns (run: Option<EntryMetadata>)
      requires Valid()
      modifies this
      ensures Valid()
      ensures state.Some? && state.value & ExecuteBadModifiers != 0 ==>
                run == None && unchanged(this)
      ensures (state.None? || state.value & ExecuteBadModifiers == 0) ==>
                run == old(SelectedEntry())
      ensures run.None? ==> unchanged(this)
      ensures run.Some? ==>
                && history == Record(old(history), (run.value.commandLabel, run.value.parentLabel))
                && Synced() && !open && query == old(query)
    {
      if state.Some? && state.value & ExecuteBadModifiers != 0 {
        return None;
      }
      run := SelectedEntry();
      if run.None? {
        return;
      }
      AddToHistory(run.value.commandLabel, run.value.parentLabel);
      open := false;
    }

    /** edit_command: records the selected command and returns it to load into the editor. */
    method EditCommand() returns (edit: Option<EntryMetadata>)
      requires Valid()
      modifies this
      ensures Valid()
      ensures edit == old(SelectedEntry())
      ensures edit.None? ==> unchanged(this)
      ensures edit.Some? ==>
                && history == Record(old(history), (edit.value.commandLabel, edit.value.parentLabel))
                && Synced() && open == old(open) && query == old(query)
    {
      edit := SelectedEntry();
      if edit.None? {
        return;
      }
      AddToHistory(edit.value.commandLabel, edit.value.parentLabel);
    }

    /** move_in_list: move the selection one row, stepping over the separator row. */
    method MoveInList(direction: int)
      requires direction == 1 || direction == -1
      requires Valid()
      modifies this
      ensures Valid()
      ensures filteredEntries == old(filteredEntries) && rows == old(rows)
      ensures history == old(history) && query == old(query) && open == old(open)
      ensures selection == Moved(old(rows), old(selection), direction)
      ensures focus == (if MovesToEntry(old(selection), direction) then EntryField else old(focus))
    {
      if selection.None? {
        return;
      }
      var current := selection.value;
      var newIndex := current + direction;
      if 0 <= newIndex < |filteredEntries| {
        var next := newIndex;
        if rows[newIndex].separatorTag {
          var skip := newIndex + direction;
          if skip >= |rows| {
            // Indexing past the end raises IndexError: nothing changes.
            return;
          }
          next := if skip < 0 then |rows| + skip else skip;
        }
        selection := Some(next);
      } else if newIndex < 0 {
        focus := EntryField;
      }
    }

    /** focus_on_list: focus the list and step to the next/previous row. */
    method FocusOnList(direction: int)
      requires direction == 1 || direction == -1
      requires Valid()
      modifies this
      ensures Valid()
      ensures filteredEntries == old(filteredEntries) && history == old(history) && query == old(query)
      ensures old(filteredEntries) == [] ==> selection == old(selection) && focus == ListWidget
      ensures old(filteredEntries) != [] ==>
                selection == Moved(old(rows), old(selection), direction)
                && focus == (if MovesToEntry(old(selection), direction) then EntryField else ListWidget)
    {
      focus := ListWidget;
      if |filteredEntries| > 0 {
        MoveInList(direction);
      }
    }

    /** Setting the search field's text, which refreshes the list. */
    method SetQuery(text: string)
      modifies this
      ensures query == text && history == old(history) && commands == old(commands)
      ensures focus == old(focus) && open == old(open)
      ensures Valid() && Synced()
    {
      query := text;
      UpdateList();
    }

    /** The commands changed elsewhere (a shortcut edit): show them afresh. */
    method SetCommands(cs: seq<EntryMetadata>)
      modifies this
      ensures commands == cs && history == old(history) && query == old(query)
      ensures focus == old(focus) && open == old(open)
      ensures Valid() && Synced()
    {
      commands := cs;
      UpdateList();
    }

    /** handle_list_typing: a key typed in the list edits the query. */
    method HandleListTyping(keysym: string, ch: string, state: bv32)
      modifies this
      ensures commands == old(commands) && history == old(history) && focus == old(focus) && open == old(open)
      ensures query == TypedQuery(old(query), keysym, ch, state)
      ensures Edits(keysym, ch, state) ==> Valid() && Synced()
      ensures !Edits(keysym, ch, state) ==> unchanged(this)
    {
      if Edits(keysym, ch, state) {
        SetQuery(TypedQuery(query, keysym, ch, state));
      }
    }
  }

  /** The selection after a move by direction that stays in the list, stepping
      over a separator row; index -1 is the last row, as in Python. */
  function Moved(rows: seq<Row>, selection: Option<nat>, direction: int): Option<nat> {
    match selection
    case None => None
    case Some(cur) =>
      var n := cur + direction;
      if 0 <= n < |rows| then
        if !rows[n].separatorTag then Some(n)
        else if n + direction >= |rows| then selection
        else if n + direction < 0 then Some(|rows| - 1)
        else Some(n + direction)
      else selection
  }

  /** Moving up from the first row hands the focus to the search field. */
  predicate MovesToEntry(selection: Option<nat>, direction: int) {
    selection.Some? && selection.value + direction < 0
  }

  predicate Typed(ch: string, state: bv32) {
    ch != [] && Printable(ch) && state & TypingBadModifiers == 0
  }

  /** Whether a key typed in the list changes the query: BackSpace/Delete, or a
      printable character without the blocking modifiers. */
  predicate Edits(keysym: string, ch: string, state: bv32) {
    keysym == "BackSpace" || keysym == "Delete" || Typed(ch, state)
  }

  /** The query after a key typed in the list. */
  function TypedQuery(query: string, keysym: string, ch: string, state: bv32): (q: string)
    ensures (keysym == "BackSpace" || keysym == "Delete") && query != [] ==> q + [query[|query| - 1]] == query
    ensures (keysym == "BackSpace" || keysym == "Delete") && query == [] ==> q == query
    ensures !(keysym == "BackSpace" || keysym == "Delete") && Typed(ch, state) ==> q == query + ch
    ensures !(keysym == "BackSpace" || keysym == "Delete") && !Typed(ch, state) ==> q == query
  {
    if keysym == "BackSpace" || keysym == "Delete" then
      (if |query| == 0 then query else query[..|query| - 1])
    else if Typed(ch, state) then query + ch
    else query
  }
}

/** What the palette's ranking and history guarantee. */
module PaletteProofs {
  import opened Wrappers
  import opened Text
  import opened Ordering
  import opened Palette

  function Cmds(es: seq<RecentPlusEntry>): (cs: seq<EntryMetadata>)
    ensures |cs| == |es|
    ensures forall i :: 0 <= i < |es| ==> cs[i] == es[i].entry
  {
    seq(|es|, i requires 0 <= i < |es| => es[i].entry)
  }

  function Id(e: EntryMetadata): Pair {
    (e.commandLabel, e.parentLabel)
  }

  /** The history as add_to_history keeps it. */
  predicate WellFormedHistory(h: seq<Pair>) {
    |h| <= NumHistory && NoDup(h) && SeparatorPair !in h
  }

  /** Position of p in the history. */
  function IndexOf(h: seq<Pair>, p: Pair): (i: nat)
    requires p in h
    ensures i < |h| && h[i] == p
    ensures forall j :: 0 <= j < i ==> h[j] != p
  {
    if h[0] == p then 0 else 1 + IndexOf(h[1..], p)
  }

  lemma CmdsAppend(a: seq<RecentPlusEntry>, b: seq<RecentPlusEntry>)
    ensures Cmds(a + b) == Cmds(a) + Cmds(b)
  {
  }

  /** Reordering the entries reorders their commands alike. */
  lemma {:induction false} CmdsMultiset(s: seq<RecentPlusEntry>, t: seq<RecentPlusEntry>)
    requires multiset(s) == multiset(t)
    ensures multiset(Cmds(s)) == multiset(Cmds(t))
    decreases |s|
  {
    if s == [] {
      assert |multiset(t)| == 0;
    } else {
      var x := s[0];
      assert x in multiset(t);
      var k :| 0 <= k < |t| && t[k] == x;
      var rest := t[..k] + t[k + 1..];
      assert t == t[..k] + [x] + t[k + 1..];
      assert s == [x] + s[1..];
      assert multiset(s) == multiset{x} + multiset(s[1..]);
      assert multiset(t) == multiset(t[..k]) + multiset{x} + multiset(t[k + 1..]);
      assert multiset(rest) == multiset(t[..k]) + multiset(t[k + 1..]);
      assert multiset(s[1..]) == multiset(s) - multiset{x};
      assert multiset(rest) == multiset(t) - multiset{x};
      CmdsMultiset(s[1..], rest);
      CmdsAppend(t[..k] + [x], t[k + 1..]);
      CmdsAppend(t[..k], [x]);
      CmdsAppend(t[..k], t[k + 1..]);
      CmdsAppend([x], s[1..]);
    }
  }

  lemma {:induction false} FirstMatchSameCmds(es1: seq<RecentPlusEntry>, es2: seq<RecentPlusEntry>, p: Pair, j: nat)
    requires Cmds(es1) == Cmds(es2) && j <= |es1|
    ensures FirstMatchFrom(es1, p, j) == FirstMatchFrom(es2, p, j)
    decreases |es1| - j
  {
    if j < |es1| {
      assert es1[j].entry == Cmds(es1)[j] == es2[j].entry;
      FirstMatchSameCmds(es1, es2, p, j + 1);
    }
  }

  // ---------------------------------------------------------------------
  // Recentness

  /** Entry k of e0 once the first i history pairs have been applied: the first
      entry naming a pair among them carries that pair's history position. */
  function Expected(e0: seq<RecentPlusEntry>, h: seq<Pair>, i: nat, k: nat): RecentPlusEntry
    requires k < |e0| && i <= |h|
  {
    var p := Id(e0[k].entry);
    if p in h[..i] && FirstMatchFrom(e0, p, 0) == k then RecentPlusEntry(IndexOf(h, p), e0[k].entry)
    else e0[k]
  }

  predicate Progress(e0: seq<RecentPlusEntry>, es: seq<RecentPlusEntry>, h: seq<Pair>, i: nat)
    requires i <= |h|
  {
    |es| == |e0| && forall k :: 0 <= k < |es| ==> es[k] == Expected(e0, h, i, k)
  }

  lemma {:induction false} MarkStep(e0: seq<RecentPlusEntry>, es: seq<RecentPlusEntry>, h: seq<Pair>, i: nat)
    requires NoDup(h) && i < |h| && Progress(e0, es, h, i)
    ensures Progress(e0, MarkFirst(es, h[i], i), h, i + 1)
  {
    var p := h[i];
    assert Cmds(es) == Cmds(e0);
    FirstMatchSameCmds(es, e0, p, 0);
    var kk := FirstMatchFrom(es, p, 0);
    var m := MarkFirst(es, p, i);
    assert h[..i + 1] == h[..i] + [p];
    assert p !in h[..i];
    forall k | 0 <= k < |m| ensures m[k] == Expected(e0, h, i + 1, k) {
      var q := Id(e0[k].entry);
      if k == kk {
        assert q == p;
        assert IndexOf(h, p) == i;
      } else {
        assert q == p ==> FirstMatchFrom(e0, p, 0) != k;
      }
    }
  }

  lemma {:induction false} AssignFromProgress(e0: seq<RecentPlusEntry>, es: seq<RecentPlusEntry>, h: seq<Pair>, i: nat)
    requires NoDup(h) && i <= |h| && Progress(e0, es, h, i)
    ensures Progress(e0, AssignFrom(es, h, i), h, |h|)
    decreases |h| - i
  {
    if i < |h| {
      MarkStep(e0, es, h, i);
      AssignFromProgress(e0, MarkFirst(es, h[i], i), h, i + 1);
    }
  }

  /** The recentness loop gives the first entry naming each history pair that
      pair's position, and leaves every other entry as it was. */
  lemma AssignedRecentness(commands: seq<EntryMetadata>, h: seq<Pair>)
    requires NoDup(h)
    ensures |Assigned(commands, h)| == |Initial(commands, h)|
    ensures forall k :: 0 <= k < |Assigned(commands, h)| ==>
              Assigned(commands, h)[k] == Expected(Initial(commands, h), h, |h|, k)
  {
    var e0 := Initial(commands, h);
    assert h[..0] == [];
    assert Progress(e0, e0, h, 0);
    AssignFromProgress(e0, e0, h, 0);
  }

  /** Entry k of the initial list: the separator first when there is a history. */
  lemma InitialAt(commands: seq<EntryMetadata>, h: seq<Pair>, k: nat)
    requires k < |Initial(commands, h)|
    ensures |h| > 0 && k == 0 ==> Initial(commands, h)[k] == SeparatorEntry
    ensures |h| > 0 && k > 0 ==> Initial(commands, h)[k] == RecentPlusEntry(NonRecent, commands[k - 1])
    ensures |h| == 0 ==> Initial(commands, h)[k] == RecentPlusEntry(NonRecent, commands[k])
  {
  }

  lemma CmdsInitial(commands: seq<EntryMetadata>, h: seq<Pair>)
    ensures Cmds(Initial(commands, h)) == (if |h| > 0 then [SeparatorMeta] else []) + commands
  {
  }

  /** With a well-formed history only the separator entry has the separator
      recentness, and it is at the front of the unsorted list. */
  lemma AssignedSeparator(commands: seq<EntryMetadata>, h: seq<Pair>)
    requires WellFormedHistory(h)
    ensures var a := Assigned(commands, h);
            && Cmds(a) == Cmds(Initial(commands, h))
            && (forall k :: 0 <= k < |a| ==> (IsSeparator(a[k]) <==> |h| > 0 && k == 0))
            && (|h| > 0 ==> a[0] == SeparatorEntry)
  {
    var a := Assigned(commands, h);
    var e0 := Initial(commands, h);
    AssignedRecentness(commands, h);
    forall k | 0 <= k < |a| ensures a[k].entry == e0[k].entry && (IsSeparator(a[k]) <==> |h| > 0 && k == 0)
                                  && (|h| > 0 && k == 0 ==> a[k] == SeparatorEntry) {
      InitialAt(commands, h, k);
      var p := Id(e0[k].entry);
      if p in h[..|h|] && FirstMatchFrom(e0, p, 0) == k {
        assert a[k].recentness == IndexOf(h, p) < |h| <= NumHistory;
        assert p != SeparatorPair;
      }
    }
  }

  lemma {:induction false} CountTwo<T>(s: seq<T>, i: nat, j: nat)
    requires i < j < |s| && s[i] == s[j]
    ensures multiset(s)[s[i]] >= 2
  {
    assert s == s[..j] + s[j..];
    assert s[i] in s[..j];
    assert s[j] in s[j..];
  }

  /** In the sorted list every separator-ranked entry is the separator, at most
      one exists, and one exists exactly when there is a history. */
  lemma SortedSeparator(commands: seq<EntryMetadata>, h: seq<Pair>, query: string,
                        fuzzy: (string, string) -> Percent)
    requires WellFormedHistory(h)
    ensures var s := SortedEntries(commands, h, query, fuzzy);
            && (forall k :: 0 <= k < |s| && IsSeparator(s[k]) ==> s[k] == SeparatorEntry)
            && (forall i, j :: 0 <= i < |s| && 0 <= j < |s| && IsSeparator(s[i]) && IsSeparator(s[j]) ==> i == j)
            && ((exists k :: 0 <= k < |s| && IsSeparator(s[k])) <==> |h| > 0)
  {
    var a := Assigned(commands, h);
    var s := SortedEntries(commands, h, query, fuzzy);
    AssignedSeparator(commands, h);
    assert multiset(s) == multiset(a);
    assert |h| > 0 ==> SeparatorEntry in s by {
      if |h| > 0 {
        assert a == [a[0]] + a[1..];
        assert SeparatorEntry in multiset(s);
      }
    }
    assert |h| > 0 ==> multiset(s)[SeparatorEntry] == 1 by {
      if |h| > 0 {
        assert a == [a[0]] + a[1..];
        assert SeparatorEntry !in a[1..];
        assert multiset(a)[SeparatorEntry] == 1;
      }
    }
    assert |h| == 0 ==> SeparatorEntry !in s by {
      if |h| == 0 {
        assert SeparatorEntry !in a;
      }
    }
    forall k | 0 <= k < |s| && IsSeparator(s[k]) ensures s[k] == SeparatorEntry {
      assert s[k] in multiset(a);
    }
    forall i, j | 0 <= i < |s| && 0 <= j < |s| && IsSeparator(s[i]) && IsSeparator(s[j]) ensures i == j {
      if i < j {
        CountTwo(s, i, j);
      } else if j < i {
        CountTwo(s, j, i);
      }
    }
  }

  // ---------------------------------------------------------------------
  // Order

  function BandOf(search: string, fuzzy: (string, string) -> Percent, e: RecentPlusEntry): int {
    Key(search, fuzzy, e).band
  }

  lemma BeforeIsStrictOrder(search: string, fuzzy: (string, string) -> Percent)
    ensures IsStrictOrder(Before(search, fuzzy))
  {
    var lt := Before(search, fuzzy);
    forall a: RecentPlusEntry ensures !lt(a, a) {
      StrLtIrreflexive(Key(search, fuzzy, a).text);
    }
    forall a: RecentPlusEntry, b: RecentPlusEntry, c: RecentPlusEntry
      ensures lt(a, b) && lt(b, c) ==> lt(a, c)
    {
      StrLtTransitive(Key(search, fuzzy, a).text, Key(search, fuzzy, b).text, Key(search, fuzzy, c).text);
    }
  }

  /** The key order is a strict weak order: entries with equal keys tie. */
  lemma BeforeIsStrictWeakOrder(search: string, fuzzy: (string, string) -> Percent)
    ensures IsStrictWeakOrder(Before(search, fuzzy))
  {
    var lt := Before(search, fuzzy);
    BeforeIsStrictOrder(search, fuzzy);
    forall a: RecentPlusEntry, b: RecentPlusEntry, c: RecentPlusEntry
      ensures lt(a, c) ==> lt(a, b) || lt(b, c)
    {
      StrLtWeak(Key(search, fuzzy, a).text, Key(search, fuzzy, b).text, Key(search, fuzzy, c).text);
    }
  }

  /** The sort is stable: entries whose keys tie, such as two commands of the
      same label in different menus, stay in the order they were listed. */
  lemma SortedEntriesStable(commands: seq<EntryMetadata>, h: seq<Pair>, query: string,
                            fuzzy: (string, string) -> Percent, y: RecentPlusEntry)
    ensures var lt := Before(SearchText(query), fuzzy);
            Ties(SortedEntries(commands, h, query, fuzzy), lt, y) == Ties(Assigned(commands, h), lt, y)
  {
    BeforeIsStrictWeakOrder(SearchText(query), fuzzy);
    SortByStable(Assigned(commands, h), Before(SearchText(query), fuzzy), y);
  }

  /** The list is in key order: band, then descending score, then recentness,
      then lower-cased label. */
  lemma RankingSorted(commands: seq<EntryMetadata>, h: seq<Pair>, query: string,
                      fuzzy: (string, string) -> Percent)
    ensures SortedBy(Ranking(commands, h, query, fuzzy), Before(SearchText(query), fuzzy))
  {
    BeforeIsStrictOrder(SearchText(query), fuzzy);
    SortBySorted(Assigned(commands, h), Before(SearchText(query), fuzzy));
  }

  /** Bands never decrease down the list, and within a band scores never increase. */
  lemma RankingBands(commands: seq<EntryMetadata>, h: seq<Pair>, query: string,
                     fuzzy: (string, string) -> Percent)
    ensures var r := Ranking(commands, h, query, fuzzy);
            var q := SearchText(query);
            forall i, j :: 0 <= i < j < |r| ==>
              && BandOf(q, fuzzy, r[i]) <= BandOf(q, fuzzy, r[j])
              && (BandOf(q, fuzzy, r[i]) == BandOf(q, fuzzy, r[j]) ==>
                    Score(q, r[i].entry, fuzzy) >= Score(q, r[j].entry, fuzzy))
  {
    var r := Ranking(commands, h, query, fuzzy);
    var q := SearchText(query);
    RankingSorted(commands, h, query, fuzzy);
    forall i, j | 0 <= i < j < |r|
      ensures && BandOf(q, fuzzy, r[i]) <= BandOf(q, fuzzy, r[j])
              && (BandOf(q, fuzzy, r[i]) == BandOf(q, fuzzy, r[j]) ==>
                    Score(q, r[i].entry, fuzzy) >= Score(q, r[j].entry, fuzzy))
    {
      assert !Before(q, fuzzy)(r[j], r[i]);
    }
  }

  /** A label-prefix match is not placed behind an entry of its band that scores less. */
  lemma PrefixMatchLeadsItsBand(commands: seq<EntryMetadata>, h: seq<Pair>, query: string,
                                fuzzy: (string, string) -> Percent, i: nat, j: nat)
    requires var r := Ranking(commands, h, query, fuzzy);
             && i < j < |r|
             && BandOf(SearchText(query), fuzzy, r[i]) == BandOf(SearchText(query), fuzzy, r[j])
             && StartsWith(Lower(r[j].entry.displayLabel), SearchText(query))
    ensures Score(SearchText(query), Ranking(commands, h, query, fuzzy)[i].entry, fuzzy) == PrefixMatch
  {
    RankingBands(commands, h, query, fuzzy);
  }

  /** An empty search puts every recent command first in history order, then the
      separator, then every other command alphabetically. */
  lemma EmptySearchOrder(commands: seq<EntryMetadata>, h: seq<Pair>, query: string,
                         fuzzy: (string, string) -> Percent)
    requires SearchText(query) == []
    ensures var r := Ranking(commands, h, query, fuzzy);
            forall i, j :: 0 <= i < j < |r| ==>
              && r[i].recentness <= r[j].recentness
              && (r[i].recentness == r[j].recentness ==>
                    !StrLt(Lower(r[j].entry.displayLabel), Lower(r[i].entry.displayLabel)))
  {
    var r := Ranking(commands, h, query, fuzzy);
    RankingSorted(commands, h, query, fuzzy);
    forall i, j | 0 <= i < j < |r|
      ensures && r[i].recentness <= r[j].recentness
              && (r[i].recentness == r[j].recentness ==>
                    !StrLt(Lower(r[j].entry.displayLabel), Lower(r[i].entry.displayLabel)))
    {
      assert StartsWith(Lower(r[i].entry.displayLabel), []);
      assert StartsWith(Lower(r[j].entry.displayLabel), []);
      assert !Before([], fuzzy)(r[j], r[i]);
    }
  }

  // ---------------------------------------------------------------------
  // The separator and the commands shown

  predicate SeparatorShown(r: seq<RecentPlusEntry>) {
    exists k :: 0 <= k < |r| && IsSeparator(r[k])
  }

  /** The list never starts with the separator. */
  lemma NoLeadingSeparator(commands: seq<EntryMetadata>, h: seq<Pair>, query: string,
                           fuzzy: (string, string) -> Percent)
    requires WellFormedHistory(h)
    ensures var r := Ranking(commands, h, query, fuzzy);
            r == [] || !IsSeparator(r[0])
  {
    var s := SortedEntries(commands, h, query, fuzzy);
    SortedSeparator(commands, h, query, fuzzy);
    if |s| > 1 && IsSeparator(s[0]) {
      assert !IsSeparator(s[1]);
    }
  }

  /** The separator is shown exactly when there is a history and some recent
      command matches well enough to stay above it. */
  lemma SeparatorShownIff(commands: seq<EntryMetadata>, h: seq<Pair>, query: string,
                          fuzzy: (string, string) -> Percent)
    requires WellFormedHistory(h)
    ensures var r := Ranking(commands, h, query, fuzzy);
            SeparatorShown(r) <==>
              |h| > 0 && exists k :: 0 <= k < |r| && BandOf(SearchText(query), fuzzy, r[k]) == 0
  {
    SeparatorShownOnlyBelow(commands, h, query, fuzzy);
    SeparatorShownWhenBelow(commands, h, query, fuzzy);
  }

  lemma SeparatorShownOnlyBelow(commands: seq<EntryMetadata>, h: seq<Pair>, query: string,
                                fuzzy: (string, string) -> Percent)
    requires WellFormedHistory(h)
    ensures var r := Ranking(commands, h, query, fuzzy);
            SeparatorShown(r) ==>
              |h| > 0 && exists k :: 0 <= k < |r| && BandOf(SearchText(query), fuzzy, r[k]) == 0
  {
    var r := Ranking(commands, h, query, fuzzy);
    var s := SortedEntries(commands, h, query, fuzzy);
    var q := SearchText(query);
    if SeparatorShown(r) {
      SortedSeparator(commands, h, query, fuzzy);
      NoLeadingSeparator(commands, h, query, fuzzy);
      RankingBands(commands, h, query, fuzzy);
      var p :| 0 <= p < |r| && IsSeparator(r[p]);
      assert r[p] in s;
      assert BandOf(q, fuzzy, r[0]) <= BandOf(q, fuzzy, r[p]) == 1;
      assert BandOf(q, fuzzy, r[0]) == 0;
    }
  }

  lemma SeparatorShownWhenBelow(commands: seq<EntryMetadata>, h: seq<Pair>, query: string,
                                fuzzy: (string, string) -> Percent)
    requires WellFormedHistory(h)
    ensures var r := Ranking(commands, h, query, fuzzy);
            (|h| > 0 && exists k :: 0 <= k < |r| && BandOf(SearchText(query), fuzzy, r[k]) == 0) ==>
              SeparatorShown(r)
  {
    var r := Ranking(commands, h, query, fuzzy);
    var s := SortedEntries(commands, h, query, fuzzy);
    var q := SearchText(query);
    if |h| > 0 && exists k :: 0 <= k < |r| && BandOf(q, fuzzy, r[k]) == 0 {
      SortedSeparator(commands, h, query, fuzzy);
      BeforeIsStrictOrder(q, fuzzy);
      SortBySorted(Assigned(commands, h), Before(q, fuzzy));
      var k :| 0 <= k < |r| && BandOf(q, fuzzy, r[k]) == 0;
      var p :| 0 <= p < |s| && IsSeparator(s[p]);
      var d := if |s| > 0 && IsSeparator(s[0]) then 1 else 0;
      assert r == s[d..];
      assert r[k] == s[k + d];
      assert k + d > 0 ==> !Before(q, fuzzy)(s[k + d], s[0]);
      assert BandOf(q, fuzzy, s[0]) == 0;
      assert r == s;
      assert IsSeparator(r[p]);
    }
  }

  /** Sorting keeps the commands: the separator when there is a history, and each command. */
  lemma SortedCommands(commands: seq<EntryMetadata>, h: seq<Pair>, query: string,
                       fuzzy: (string, string) -> Percent)
    requires WellFormedHistory(h)
    ensures multiset(Cmds(SortedEntries(commands, h, query, fuzzy))) ==
              (if |h| > 0 then multiset{SeparatorMeta} else multiset{}) + multiset(commands)
  {
    AssignedSeparator(commands, h);
    CmdsMultiset(SortedEntries(commands, h, query, fuzzy), Assigned(commands, h));
    CmdsInitial(commands, h);
  }

  lemma TailHasNoSeparator(s: seq<RecentPlusEntry>)
    requires forall i, j :: 0 <= i < |s| && 0 <= j < |s| && IsSeparator(s[i]) && IsSeparator(s[j]) ==> i == j
    requires |s| > 0 && IsSeparator(s[0])
    ensures !SeparatorShown(s[1..])
  {
    forall k | 0 <= k < |s| - 1 ensures !IsSeparator(s[1..][k]) {
      assert s[1..][k] == s[k + 1];
    }
  }

  lemma CmdsCons(s: seq<RecentPlusEntry>)
    requires |s| > 0
    ensures multiset(Cmds(s)) == multiset{s[0].entry} + multiset(Cmds(s[1..]))
  {
    var tail := Cmds(s[1..]);
    forall i | 1 <= i < |s| ensures Cmds(s)[i] == tail[i - 1] {
      assert s[1..][i - 1] == s[i];
    }
    assert Cmds(s) == [s[0].entry] + tail;
  }

  /** Dropping a leading separator, when it is the only one, leaves the commands. */
  lemma DropSeparatorCommands(s: seq<RecentPlusEntry>, shown: bool, commands: seq<EntryMetadata>)
    requires forall k :: 0 <= k < |s| && IsSeparator(s[k]) ==> s[k] == SeparatorEntry
    requires forall i, j :: 0 <= i < |s| && 0 <= j < |s| && IsSeparator(s[i]) && IsSeparator(s[j]) ==> i == j
    requires SeparatorShown(s) <==> shown
    requires multiset(Cmds(s)) == (if shown then multiset{SeparatorMeta} else multiset{}) + multiset(commands)
    ensures var r := DropLeadingSeparator(s);
            multiset(Cmds(r)) ==
              multiset(commands) + (if SeparatorShown(r) then multiset{SeparatorMeta} else multiset{})
  {
    if |s| > 0 && IsSeparator(s[0]) {
      TailHasNoSeparator(s);
      assert shown && s[0].entry == SeparatorMeta;
      CmdsCons(s);
      assert DropLeadingSeparator(s) == s[1..];
      assert multiset(Cmds(s[1..])) == multiset(Cmds(s)) - multiset{SeparatorMeta};
      assert multiset(commands) == multiset(Cmds(s)) - multiset{SeparatorMeta};
    }
  }

  /** Every command is listed exactly once, plus the separator when it is shown. */
  lemma RankingCommands(commands: seq<EntryMetadata>, h: seq<Pair>, query: string,
                        fuzzy: (string, string) -> Percent)
    requires WellFormedHistory(h)
    ensures var r := Ranking(commands, h, query, fuzzy);
            multiset(Cmds(r)) ==
              multiset(commands) + (if SeparatorShown(r) then multiset{SeparatorMeta} else multiset{})
  {
    SortedSeparator(commands, h, query, fuzzy);
    SortedCommands(commands, h, query, fuzzy);
    DropSeparatorCommands(SortedEntries(commands, h, query, fuzzy), |h| > 0, commands);
  }

  // ---------------------------------------------------------------------
  // History

  lemma {:induction false} RemoveFirstNotIn(h: seq<Pair>, p: Pair)
    requires p !in h
    ensures RemoveFirst(h, p) == h
  {
    if h != [] {
      assert h == [h[0]] + h[1..];
      assert h[0] != p && p !in h[1..];
      RemoveFirstNotIn(h[1..], p);
    }
  }

  /** `list.remove` takes out the first occurrence and keeps the other
      entries in their order. */
  lemma {:induction false} RemoveFirstSplits(h: seq<Pair>, p: Pair) returns (k: nat)
    requires p in h
    ensures k < |h| && h[k] == p && p !in h[..k]
    ensures RemoveFirst(h, p) == h[..k] + h[k + 1..]
  {
    if h[0] == p {
      k := 0;
      assert h[..0] == [];
    } else {
      assert p in h[1..];
      var j := RemoveFirstSplits(h[1..], p);
      assert RemoveFirst(h, p) == [h[0]] + RemoveFirst(h[1..], p);
      ConsSplit(h, j);
      ConsNotIn(h, p, j);
      k := j + 1;
    }
  }

  /** Putting the head back in front of a split tail splits the whole sequence. */
  lemma ConsSplit<T>(h: seq<T>, j: nat)
    requires j < |h| - 1
    ensures [h[0]] + (h[1..][..j] + h[1..][j + 1..]) == h[..j + 1] + h[j + 2..]
  {
    assert h[..j + 1] == [h[0]] + h[1..][..j];
    assert h[j + 2..] == h[1..][j + 1..];
  }

  /** An element missing from the head and from a prefix of the tail is missing
      from the longer prefix. */
  lemma ConsNotIn<T>(h: seq<T>, p: T, j: nat)
    requires j < |h| - 1 && h[0] != p && p !in h[1..][..j]
    ensures p !in h[..j + 1]
  {
    assert h[..j + 1] == [h[0]] + h[1..][..j];
  }

  lemma {:induction false} RemoveFirstNoDup(h: seq<Pair>, p: Pair)
    requires NoDup(h)
    ensures NoDup(RemoveFirst(h, p)) && p !in RemoveFirst(h, p)
  {
    if h != [] {
      assert h[0] !in h[1..];
      if h[0] != p {
        RemoveFirstNoDup(h[1..], p);
        var rest := RemoveFirst(h[1..], p);
        assert h[0] !in multiset(rest);
      } else {
        assert p !in h[1..];
      }
    }
  }

  /** After recording, the pair heads the history. */
  lemma RecordFront(h: seq<Pair>, p: Pair)
    ensures |Record(h, p)| > 0 && Record(h, p)[0] == p
  {
  }

  /** Recording keeps a well-formed history well-formed. */
  lemma RecordWellFormed(h: seq<Pair>, p: Pair)
    requires WellFormedHistory(h) && p != SeparatorPair
    ensures WellFormedHistory(Record(h, p))
  {
    RemoveFirstNoDup(h, p);
    var rest := RemoveFirst(h, p);
    var moved := [p] + rest;
    assert NoDup(moved) by {
      forall i, j | 0 <= i < j < |moved| ensures moved[i] != moved[j] {
        assert moved[j] == rest[j - 1];
        if i == 0 {
          assert rest[j - 1] in rest;
        } else {
          assert moved[i] == rest[i - 1];
        }
      }
    }
    assert SeparatorPair !in moved by {
      assert SeparatorPair !in multiset(h);
      assert SeparatorPair !in multiset(rest);
    }
    PrefixKeepsHistory(moved, NumHistory);
  }

  /** A prefix of a list without repeats or separator has neither. */
  lemma PrefixKeepsHistory(s: seq<Pair>, n: nat)
    requires NoDup(s) && SeparatorPair !in s
    ensures var r := if |s| <= n then s else s[..n];
            |r| <= n && NoDup(r) && SeparatorPair !in r
  {
    if |s| > n {
      var r := s[..n];
      assert forall i :: 0 <= i < n ==> r[i] == s[i];
      assert SeparatorPair !in r by {
        forall i | 0 <= i < n ensures r[i] != SeparatorPair {
          assert s[i] in s;
        }
      }
    }
  }

  /** Re-running a command already in the history only moves it to the front. */
  lemma RecordExisting(h: seq<Pair>, p: Pair)
    requires WellFormedHistory(h) && p in h
    ensures exists k :: 0 <= k < |h| && h[k] == p && Record(h, p) == [p] + h[..k] + h[k + 1..]
  {
    var k := RemoveFirstSplits(h, p);
    var rest := RemoveFirst(h, p);
    assert |rest| == |h| - 1;
    assert Record(h, p) == [p] + h[..k] + h[k + 1..] by {
      assert [p] + rest == [p] + h[..k] + h[k + 1..];
    }
  }

  /** A new command goes in front and the oldest drops off a full history. */
  lemma RecordNew(h: seq<Pair>, p: Pair)
    requires p !in h
    ensures Record(h, p) == [p] + (if |h| < NumHistory then h else h[..NumHistory - 1])
  {
    RemoveFirstNotIn(h, p);
  }

  /** Recording the same command twice is the same as once. */
  lemma RecordIdempotent(h: seq<Pair>, p: Pair)
    ensures Record(Record(h, p), p) == Record(h, p)
  {
    var once := Record(h, p);
    var rest := RemoveFirst(h, p);
    assert once == [p] + (if |rest| + 1 <= NumHistory then rest else rest[..NumHistory - 1]);
    assert RemoveFirst(once, p) == once[1..];
  }

  // ---------------------------------------------------------------------
  // Recent commands in the list

  /** An entry listed with a history position is a command named by that history entry. */
  lemma RecentEntriesMatchHistory(commands: seq<EntryMetadata>, h: seq<Pair>, query: string,
                                  fuzzy: (string, string) -> Percent)
    requires WellFormedHistory(h)
    ensures var r := Ranking(commands, h, query, fuzzy);
            forall k :: 0 <= k < |r| && 0 <= r[k].recentness < |h| ==> Matches(r[k], h[r[k].recentness])
  {
    var r := Ranking(commands, h, query, fuzzy);
    var s := SortedEntries(commands, h, query, fuzzy);
    var a := Assigned(commands, h);
    assert forall x :: x in r ==> x in a by {
      assert multiset(s) == multiset(a);
      forall x | x in r ensures x in a {
        assert x in s;
        assert x in multiset(a);
      }
    }
    forall k | 0 <= k < |r| && 0 <= r[k].recentness < |h| ensures Matches(r[k], h[r[k].recentness]) {
      assert r[k] in a;
      var m :| 0 <= m < |a| && a[m] == r[k];
      AssignedMatches(commands, h, m);
    }
  }

  /** An entry given a history position after marking is a command named by
      that history entry. */
  lemma AssignedMatches(commands: seq<EntryMetadata>, h: seq<Pair>, m: nat)
    requires WellFormedHistory(h)
    requires m < |Assigned(commands, h)|
    ensures var x := Assigned(commands, h)[m];
            0 <= x.recentness < |h| ==> Matches(x, h[x.recentness])
  {
    var e0 := Initial(commands, h);
    AssignedRecentness(commands, h);
    assert h[..|h|] == h;
    InitialAt(commands, h, m);
    assert e0[m].recentness >= SeparatorRank;
  }

  /** Every history entry that names some command gives exactly that position to
      one listed entry. */
  lemma HistoryEntriesListed(commands: seq<EntryMetadata>, h: seq<Pair>, query: string,
                             fuzzy: (string, string) -> Percent, i: nat, c: nat)
    requires WellFormedHistory(h)
    requires i < |h| && c < |commands| && Id(commands[c]) == h[i]
    ensures var r := Ranking(commands, h, query, fuzzy);
            exists k :: 0 <= k < |r| && r[k].recentness == i && Matches(r[k], h[i])
  {
    var a := Assigned(commands, h);
    var kk := HistoryEntryAssigned(commands, h, i, c);
    RankingKeepsNonSeparators(commands, h, query, fuzzy, a[kk]);
  }

  /** The first entry naming a history pair is marked with its position. */
  lemma HistoryEntryAssigned(commands: seq<EntryMetadata>, h: seq<Pair>, i: nat, c: nat) returns (kk: nat)
    requires WellFormedHistory(h)
    requires i < |h| && c < |commands| && Id(commands[c]) == h[i]
    ensures var a := Assigned(commands, h);
            kk < |a| && a[kk].recentness == i && Matches(a[kk], h[i])
  {
    var a := Assigned(commands, h);
    var e0 := Initial(commands, h);
    AssignedRecentness(commands, h);
    assert h[..|h|] == h;
    InitialAt(commands, h, 1 + c);
    kk := FirstMatchFrom(e0, h[i], 0);
    assert kk <= 1 + c;
    assert Id(e0[kk].entry) == h[i];
    IndexOfNoDup(h, i);
  }

  /** In a history without duplicates, an entry is found at its own position. */
  lemma IndexOfNoDup(h: seq<Pair>, i: nat)
    requires NoDup(h) && i < |h|
    ensures IndexOf(h, h[i]) == i
  {
    var k := IndexOf(h, h[i]);
    assert k <= i;
  }

  /** Every marked entry that is not the separator is shown. */
  lemma RankingKeepsNonSeparators(commands: seq<EntryMetadata>, h: seq<Pair>, query: string,
                                  fuzzy: (string, string) -> Percent, x: RecentPlusEntry)
    requires x in Assigned(commands, h) && !IsSeparator(x)
    ensures x in Ranking(commands, h, query, fuzzy)
  {
    var s := SortedEntries(commands, h, query, fuzzy);
    assert x in s by {
      assert multiset(s) == multiset(Assigned(commands, h));
      assert x in multiset(s);
    }
    DropKeepsNonSeparator(s, x);
  }

  lemma DropKeepsNonSeparator(s: seq<RecentPlusEntry>, x: RecentPlusEntry)
    requires x in s && !IsSeparator(x)
    ensures x in DropLeadingSeparator(s)
  {
    var m :| 0 <= m < |s| && s[m] == x;
    if |s| > 0 && IsSeparator(s[0]) {
      assert s[1..][m - 1] == x;
    }
  }

  // ---------------------------------------------------------------------
  // Navigation

  predicate OneSeparatorRow(rows: seq<Row>) {
    forall i, j :: 0 <= i < |rows| && 0 <= j < |rows| && rows[i].separatorTag && rows[j].separatorTag ==> i == j
  }

  /** The rows of the list carry at most one separator tag, never on the first row. */
  lemma RankingRows(commands: seq<EntryMetadata>, h: seq<Pair>, query: string,
                    fuzzy: (string, string) -> Percent)
    requires WellFormedHistory(h)
    ensures var rows := Rows(Ranking(commands, h, query, fuzzy));
            OneSeparatorRow(rows) && (rows == [] || !rows[0].separatorTag)
  {
    var s := SortedEntries(commands, h, query, fuzzy);
    SortedSeparator(commands, h, query, fuzzy);
    NoLeadingSeparator(commands, h, query, fuzzy);
    DropKeepsOneSeparator(s);
    RowsOfOneSeparator(DropLeadingSeparator(s));
  }

  predicate AtMostOneSeparator(es: seq<RecentPlusEntry>) {
    forall i, j :: 0 <= i < |es| && 0 <= j < |es| && IsSeparator(es[i]) && IsSeparator(es[j]) ==> i == j
  }

  lemma DropKeepsOneSeparator(s: seq<RecentPlusEntry>)
    requires AtMostOneSeparator(s)
    ensures AtMostOneSeparator(DropLeadingSeparator(s))
  {
    var r := DropLeadingSeparator(s);
    var d := if |s| > 0 && IsSeparator(s[0]) then 1 else 0;
    assert r == s[d..];
    forall i, j | 0 <= i < |r| && 0 <= j < |r| && IsSeparator(r[i]) && IsSeparator(r[j]) ensures i == j {
      assert r[i] == s[i + d] && r[j] == s[j + d];
    }
  }

  lemma RowsOfOneSeparator(r: seq<RecentPlusEntry>)
    requires AtMostOneSeparator(r) && (r == [] || !IsSeparator(r[0]))
    ensures OneSeparatorRow(Rows(r)) && (Rows(r) == [] || !Rows(r)[0].separatorTag)
  {
    var rows := Rows(r);
    assert forall i :: 0 <= i < |r| ==> rows[i].separatorTag == IsSeparator(r[i]);
  }

  /** Up and Down move by one row, or by two over the separator, and never stop
      on the separator row. */
  lemma MoveSkipsSeparator(rows: seq<Row>, selection: Option<nat>, direction: int)
    requires direction == 1 || direction == -1
    requires OneSeparatorRow(rows) && (rows == [] || !rows[0].separatorTag)
    requires selection.Some? ==> selection.value < |rows|
    ensures var m := Moved(rows, selection, direction);
            && (m.Some? <==> selection.Some?)
            && (m.Some? ==> m.value < |rows|)
            && (m != selection ==>
                  (m.value == selection.value + direction || m.value == selection.value + 2 * direction)
                  && !rows[m.value].separatorTag)
            && (selection.Some? ==>
                  var n := selection.value + direction;
                  && (0 <= n < |rows| && !rows[n].separatorTag ==> m == Some(n))
                  && (0 <= n < |rows| && rows[n].separatorTag && 0 <= n + direction < |rows| ==>
                        m == Some(n + direction))
                  && (n < 0 ==> MovesToEntry(selection, direction) && m == selection)
                  && (n >= |rows| ==> m == selection))
  {
    if selection.Some? {
      var n := selection.value + direction;
      if 0 <= n < |rows| && rows[n].separatorTag && 0 <= n + direction < |rows| {
        assert n + direction != n;
      }
    }
  }
}
