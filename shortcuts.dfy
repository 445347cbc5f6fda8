/** The shortcut editor: capturing a key combination, checking it against the
    rejection rules, and committing it so that no two commands share a shortcut. */
module Shortcuts {
  import opened Wrappers
  import opened Text
  import opened Ordering
  import opened Palette

  /** What the accelerator converter returns for a stored shortcut: the form shown
      to the user and the Tk event sequence it binds. */
  datatype Accel = Accel(display: string, bindKey: string)

  // ---------------------------------------------------------------------
  // Key capture

  /** The modifier name a modifier keysym stands for (Alt is Option on macOS). */
  function ModifierName(keysym: string, isMac: bool): Option<string> {
    if keysym == "Shift_L" || keysym == "Shift_R" then Some("Shift")
    else if keysym == "Control_L" || keysym == "Control_R" then Some("Ctrl")
    else if keysym == "Alt_L" || keysym == "Alt_R" then Some(if isMac then "Option" else "Alt")
    else if keysym == "Meta_L" || keysym == "Meta_R" then Some("Cmd")
    else if keysym == "Option_L" || keysym == "Option_R" then Some("Option")
    else None
  }

  predicate IsModifierKey(keysym: string) {
    ModifierName(keysym, false).Some?
  }

  /** Every modifier name, in string order. */
  const ModifierOrder: seq<string> := ["Alt", "Cmd", "Ctrl", "Option", "Shift"]

  /** The names of the held modifier keys. */
  function HeldNames(pressed: set<string>, isMac: bool): set<string> {
    set k | k in pressed && IsModifierKey(k) :: ModifierName(k, isMac).value
  }

  /** The elements of order that are in names, in order. */
  function Keep(order: seq<string>, names: set<string>): seq<string> {
    if order == [] then []
    else (if order[0] in names then [order[0]] else []) + Keep(order[1..], names)
  }

  /** `sorted(set(...))` of the held modifier names. */
  function SortedModifiers(pressed: set<string>, isMac: bool): seq<string> {
    Keep(ModifierOrder, HeldNames(pressed, isMac))
  }

  /** The key part of a shortcut: "-" is named, a single character becomes Key-<upper>. */
  function KeyName(keysym: string): string {
    var k := if keysym == "-" then "minus" else keysym;
    if |k| == 1 then "Key-" + [UpperChar(k[0])] else k
  }

  /** The shortcut made from the held modifiers and a key. */
  function ShortcutFor(pressed: set<string>, keysym: string, isMac: bool): string {
    Join(SortedModifiers(pressed, isMac) + [KeyName(keysym)], '+')
  }

  /** The capture state: held modifier keysyms and the current shortcut. */
  datatype Capture = Capture(pressed: set<string>, shortcut: string)

  /** What a key press asks of the dialog: nothing more, the OK action, or normal
      Tab focus traversal. */
  datatype KeyOutcome = Handled | OkRequested | PassToFocus

  function PressKey(c: Capture, keysym: string, isMac: bool): (Capture, KeyOutcome) {
    if IsModifierKey(keysym) then (c.(pressed := c.pressed + {keysym}), Handled)
    else if (keysym == "BackSpace" || keysym == "Delete") && c.pressed == {} then (c.(shortcut := []), Handled)
    else if keysym == "Return" && c.pressed == {} then (c, OkRequested)
    else if keysym == "Tab" then (c, PassToFocus)
    else (c.(shortcut := ShortcutFor(c.pressed, keysym, isMac)), Handled)
  }

  function ReleaseKey(c: Capture, keysym: string): Capture {
    if IsModifierKey(keysym) then c.(pressed := c.pressed - {keysym}) else c
  }

  // ---------------------------------------------------------------------
  // Validation

  /** Why a shortcut is refused. */
  datatype Rejection =
    | NeedsModifier
    | ForbiddenKey(key: string)
    | ReservedForHelp
    | ReservedCmdShiftQuestion
    | Reserved(display: string)
    | Unsupported(bindKey: string)

  /** The number of ASCII digits at the end of s. */
  function TrailingDigits(s: string): (n: nat)
    ensures n <= |s|
    ensures forall i :: |s| - n <= i < |s| ==> IsDigit(s[i])
    ensures n < |s| ==> !IsDigit(s[|s| - n - 1])
  {
    if s == [] || !IsDigit(s[|s| - 1]) then 0
    else 1 + TrailingDigits(s[..|s| - 1])
  }

  /** t ends with F and one or more digits. */
  predicate FKeyTail(t: string) {
    var n := TrailingDigits(t);
    0 < n < |t| && t[|t| - n - 1] == 'F'
  }

  /** `re.search(r"F\d+$", d)`: `$` also matches before a final newline. */
  predicate SearchFKey(d: string) {
    FKeyTail(d) || (|d| > 0 && d[|d| - 1] == '\n' && FKeyTail(d[..|d| - 1]))
  }

  /** F then digits from i to j, with j at the end or before a final newline. */
  predicate FSpan(d: string, i: int, j: int) {
    && 0 <= i && i + 1 < j <= |d|
    && (j == |d| || (j == |d| - 1 && d[j] == '\n'))
    && d[i] == 'F'
    && forall k :: i + 1 <= k < j ==> IsDigit(d[k])
  }

  const Ctrl := "Ctrl"
  const Cmd := "Cmd"

  /** Ctrl/Cmd plus A, C, V or X: select all, copy, paste and cut. */
  function ReservedShortcuts(isMac: bool): seq<string> {
    var c := if isMac then Cmd else Ctrl;
    [c + "+A", c + "+C", c + "+V", c + "+X"]
  }

  /** The rejection rules in order; None when the shortcut may be used. */
  function Validate(newShortcut: string, accel: string -> Accel, canBind: string -> bool, isMac: bool): Option<Rejection> {
    var d := accel(newShortcut).display;
    if d != [] && !(Contains(d, Ctrl) || Contains(d, Cmd) || Contains(d, "Alt")) && !SearchFKey(d) then
      Some(NeedsModifier)
    else if Contains(Lower(d), "option") then Some(ForbiddenKey("Option"))
    else if Contains(Lower(d), "tab") then Some(ForbiddenKey("Tab"))
    else if d == "F1" then Some(ReservedForHelp)
    else if d == "Cmd+Shift+?" then Some(ReservedCmdShiftQuestion)
    else if d in ReservedShortcuts(isMac) then Some(Reserved(d))
    else if newShortcut != [] && !canBind(accel(newShortcut).bindKey) then
      Some(Unsupported(accel(newShortcut).bindKey))
    else None
  }

  // ---------------------------------------------------------------------
  // Conflicts and commit

  function Id(e: EntryMetadata): Pair {
    (e.commandLabel, e.parentLabel)
  }

  /** "menu|label", or the label alone for a command without a menu. */
  function Assign(menu: string, name: string): string {
    if menu != [] then menu + "|" + name else name
  }

  function AssignOf(e: EntryMetadata): string {
    Assign(e.displayParentLabel, e.displayLabel)
  }

  function DisplayOf(accel: string -> Accel, e: EntryMetadata): string {
    accel(e.shortcut).display
  }

  /** Index of the first entry from i on that shows display d. */
  function HolderFrom(entries: seq<EntryMetadata>, accel: string -> Accel, d: string, i: nat): (r: Option<nat>)
    requires i <= |entries|
    ensures r.Some? ==> i <= r.value < |entries| && DisplayOf(accel, entries[r.value]) == d
    ensures r.None? ==> forall k :: i <= k < |entries| ==> DisplayOf(accel, entries[k]) != d
    decreases |entries| - i
  {
    if i == |entries| then None
    else if DisplayOf(accel, entries[i]) == d then Some(i)
    else HolderFrom(entries, accel, d, i + 1)
  }

  /** The command that currently has display shortcut d; none for the empty display. */
  function Holder(entries: seq<EntryMetadata>, accel: string -> Accel, d: string): Option<nat> {
    if d == [] then None else HolderFrom(entries, accel, d, 0)
  }

  /** Gives every entry with identity id the shortcut value. */
  function SetShortcutOf(es: seq<EntryMetadata>, id: Pair, value: string): (r: seq<EntryMetadata>)
    ensures |r| == |es|
    ensures forall i :: 0 <= i < |es| ==> r[i] == (if Id(es[i]) == id then es[i].(shortcut := value) else es[i])
  {
    seq(|es|, i requires 0 <= i < |es| => if Id(es[i]) == id then es[i].(shortcut := value) else es[i])
  }

  /** How apply_changes ends. */
  datatype Outcome = Rejected(why: Rejection) | Declined | Committed(reset: Option<Pair>)

  /** A question put to the user; the answer is True for yes. */
  datatype Prompt =
    | Reassign(shortcut: string, current: string, proposed: string)
    | MenuKey(shortcut: string, menu: string, proposed: string)

  /** "Alt+c" with a single character other than a newline. */
  function AltKey(d: string): Option<char> {
    if |d| == 5 && d[..4] == "Alt+" && d[4] != '\n' then Some(d[4]) else None
  }

  function MenuName(topMenu: string): string {
    ReplaceAll(topMenu, "~", "")
  }

  /** Every top menu whose access key is c has been confirmed for reassignment. */
  predicate MenuKeysConfirmed(topMenus: seq<string>, c: char, shown: string, proposed: string, ask: Prompt -> bool) {
    forall i :: 0 <= i < |topMenus| && Contains(topMenus[i], ['~', c]) ==>
      ask(MenuKey(shown, MenuName(topMenus[i]), proposed))
  }

  /** The outcome of apply_changes for a new shortcut, after the checks and questions. */
  function Decide(entries: seq<EntryMetadata>, topMenus: seq<string>, accel: string -> Accel,
                  canBind: string -> bool, isMac: bool, ask: Prompt -> bool,
                  newShortcut: string, proposed: string, shown: string): Outcome
  {
    match Validate(newShortcut, accel, canBind, isMac)
    case Some(why) => Rejected(why)
    case None =>
      var d := accel(newShortcut).display;
      match Holder(entries, accel, d)
      case Some(h) =>
        var current := AssignOf(entries[h]);
        if current == proposed then Committed(None)
        else if ask(Reassign(shown, current, proposed)) then Committed(Some(Id(entries[h])))
        else Declined
      case None =>
        if !isMac && AltKey(d).Some? && !MenuKeysConfirmed(topMenus, AltKey(d).value, shown, proposed, ask) then
          Declined
        else Committed(None)
  }

  /** The entries after committing: the previous holder loses the shortcut, then
      the edited command gets it. */
  function Commit(es: seq<EntryMetadata>, reset: Option<Pair>, target: Pair, newShortcut: string): seq<EntryMetadata> {
    var cleared := if reset.Some? then SetShortcutOf(es, reset.value, []) else es;
    SetShortcutOf(cleared, target, newShortcut)
  }

  /** The saved user shortcuts after committing. */
  function CommitSaved(saved: map<Pair, string>, reset: Option<Pair>, target: Pair, newShortcut: string): map<Pair, string> {
    var cleared := if reset.Some? then saved[reset.value := []] else saved;
    cleared[target := newShortcut]
  }

  predicate DistinctIds(es: seq<EntryMetadata>) {
    forall i, j :: 0 <= i < |es| && 0 <= j < |es| && i != j ==> Id(es[i]) != Id(es[j])
  }

  predicate DistinctAssigns(es: seq<EntryMetadata>) {
    forall i, j :: 0 <= i < |es| && 0 <= j < |es| && i != j ==> AssignOf(es[i]) != AssignOf(es[j])
  }

  /** No two commands show the same non-empty shortcut. */
  predicate UniqueShortcuts(es: seq<EntryMetadata>, accel: string -> Accel) {
    forall i, j :: 0 <= i < |es| && 0 <= j < |es| && i != j && DisplayOf(accel, es[i]) != [] ==>
      DisplayOf(accel, es[i]) != DisplayOf(accel, es[j])
  }

  // ---------------------------------------------------------------------
  // State

  /** The menu metadata: every command with its shortcut, the top-level menu
      labels (with ~ before the access key) and the saved user shortcuts. */
  class MenuRegistry {
    var entries: seq<EntryMetadata>
    var topMenus: seq<string>
    var saved: map<Pair, string>
    /** Times the user shortcuts were written to the preferences. */
    var saves: nat
    /** Times the menus were rebuilt. */
    var menuRebuilds: nat

    ghost predicate Valid(accel: string -> Accel)
      reads this
    {
      DistinctIds(entries) && DistinctAssigns(entries) && UniqueShortcuts(entries, accel)
    }

    constructor (entries: seq<EntryMetadata>, topMenus: seq<string>, saved: map<Pair, string>)
      ensures this.entries == entries && this.topMenus == topMenus && this.saved == saved
      ensures saves == 0 && menuRebuilds == 0
    {
      this.entries := entries;
      this.topMenus := topMenus;
      this.saved := saved;
      saves := 0;
      menuRebuilds := 0;
    }

    /** Stores an accepted shortcut: set_shortcut on the holder and the command,
        save_to_prefs, and the menu rebuild. */
    method CommitShortcut(reset: Option<Pair>, target: Pair, newShortcut: string)
      modifies this
      ensures entries == Commit(old(entries), reset, target, newShortcut)
      ensures saved == CommitSaved(old(saved), reset, target, newShortcut)
      ensures topMenus == old(topMenus)
      ensures saves == old(saves) + 1 && menuRebuilds == old(menuRebuilds) + 1
    {
      entries := Commit(entries, reset, target, newShortcut);
      saved := CommitSaved(saved, reset, target, newShortcut);
      saves := saves + 1;
      menuRebuilds := menuRebuilds + 1;
    }
  }

  class CommandEditDialog {
    const isMac: bool
    /** The accelerator converter. */
    const accel: string -> Accel
    /** Whether Tk accepts an event sequence for binding. */
    const canBind: string -> bool
    var pressed: set<string>
    var shortcut: string
    /** The shortcut as shown in the dialog. */
    var shortcutDisplay: string
    var labelText: string
    var menuText: string
    /** The command being edited. */
    var cmd: EntryMetadata

    ghost predicate Valid()
      reads this
    {
      && shortcutDisplay == accel(shortcut).display
      && (forall k :: k in pressed ==> IsModifierKey(k))
      && labelText == cmd.displayLabel && menuText == cmd.displayParentLabel
      && accel([]).display == []
    }

    constructor (isMac: bool, accel: string -> Accel, canBind: string -> bool)
      requires accel([]).display == []
      ensures Valid()
      ensures this.isMac == isMac && this.accel == accel && this.canBind == canBind
      ensures pressed == {} && shortcut == [] && cmd == EntryMetadata([], [], [], [], [])
    {
      this.isMac := isMac;
      this.accel := accel;
      this.canBind := canBind;
      pressed := {};
      shortcut := [];
      shortcutDisplay := accel([]).display;
      labelText := [];
      menuText := [];
      cmd := EntryMetadata([], [], [], [], []);
    }

    /** The shortcut setter: the display follows the stored value. */
    method SetShortcut(value: string)
      modifies this
      ensures shortcut == value && shortcutDisplay == accel(value).display
      ensures pressed == old(pressed) && cmd == old(cmd)
      ensures labelText == old(labelText) && menuText == old(menuText)
    {
      shortcut := value;
      shortcutDisplay := accel(value).display;
    }

    /** load: show a command and its shortcut. */
    method Load(c: EntryMetadata)
      requires Valid()
      modifies this
      ensures Valid()
      ensures cmd == c && shortcut == c.shortcut && pressed == old(pressed)
    {
      cmd := c;
      labelText := c.displayLabel;
      menuText := c.displayParentLabel;
      SetShortcut(c.shortcut);
    }

    /** key_press */
    method KeyPress(keysym: string) returns (outcome: KeyOutcome)
      requires Valid()
      modifies this
      ensures Valid()
      ensures (Capture(pressed, shortcut), outcome) == PressKey(old(Capture(pressed, shortcut)), keysym, isMac)
      ensures cmd == old(cmd)
    {
      outcome := Handled;
      if IsModifierKey(keysym) {
        pressed := pressed + {keysym};
      } else if (keysym == "BackSpace" || keysym == "Delete") && |pressed| == 0 {
        SetShortcut([]);
      } else if keysym == "Return" && |pressed| == 0 {
        outcome := OkRequested;
      } else if keysym == "Tab" {
        outcome := PassToFocus;
      } else {
        var mods := SortedModifiers(pressed, isMac);
        var key := if keysym == "-" then "minus" else keysym;
        if |key| == 1 {
          key := "Key-" + [UpperChar(key[0])];
        }
        SetShortcut(Join(mods + [key], '+'));
      }
    }

    /** key_release */
    method KeyRelease(keysym: string)
      requires Valid()
      modifies this
      ensures Valid()
      ensures Capture(pressed, shortcut) == ReleaseKey(old(Capture(pressed, shortcut)), keysym)
      ensures cmd == old(cmd) && shortcutDisplay == old(shortcutDisplay)
    {
      if IsModifierKey(keysym) {
        pressed := pressed - {keysym};
      }
    }

    /** Losing focus forgets the held modifiers. */
    method FocusOut()
      requires Valid()
      modifies this
      ensures Valid()
      ensures pressed == {} && shortcut == old(shortcut) && cmd == old(cmd)
    {
      pressed := {};
    }

    /** apply_changes: check, resolve a conflict, then store the new shortcut. */
    method ApplyChanges(registry: MenuRegistry, palette: CommandPaletteDialog, ask: Prompt -> bool)
      returns (ok: bool)
      requires Valid() && registry.Valid(accel)
      requires EditsEntry(registry.entries, Id(cmd), Assign(menuText, labelText))
      modifies this, registry, palette
      ensures Valid() && registry.Valid(accel)
      ensures var outcome := Decide(old(registry.entries), old(registry.topMenus), accel, canBind, isMac, ask,
                                    old(shortcut), old(Assign(menuText, labelText)), old(shortcutDisplay));
              && (ok <==> outcome.Committed?)
              && (!ok ==> unchanged(this) && unchanged(registry) && unchanged(palette))
              && (ok ==>
                    && registry.entries == Commit(old(registry.entries), outcome.reset, old(Id(cmd)), old(shortcut))
                    && registry.saved == CommitSaved(old(registry.saved), outcome.reset, old(Id(cmd)), old(shortcut))
                    && registry.topMenus == old(registry.topMenus)
                    && registry.saves == old(registry.saves) + 1
                    && registry.menuRebuilds == old(registry.menuRebuilds) + 1
                    && cmd == old(cmd).(shortcut := old(shortcut))
                    && shortcut == old(shortcut) && pressed == old(pressed)
                    && (old(palette.open) ==>
                          palette.commands == Commit(old(palette.commands), outcome.reset, old(Id(cmd)), old(shortcut))
                          && palette.Valid() && palette.Synced())
                    && (!old(palette.open) ==> unchanged(palette)))
    {
      var newShortcut := shortcut;
      var target := Id(cmd);
      var outcome := DecideChanges(registry.entries, registry.topMenus, accel, canBind, isMac, ask,
                                   newShortcut, Assign(menuText, labelText), shortcutDisplay);
      if !outcome.Committed? {
        return false;
      }
      var committed := Commit(registry.entries, outcome.reset, target, newShortcut);
      assert DistinctIds(committed) && DistinctAssigns(committed) && UniqueShortcuts(committed, accel) by {
        DecideFits(registry.entries, registry.topMenus, accel, canBind, isMac, ask,
                   newShortcut, Assign(menuText, labelText), shortcutDisplay);
        CommitPreservesUnique(registry.entries, accel, outcome.reset, target, newShortcut, Assign(menuText, labelText));
      }
      Store(registry, palette, outcome.reset);
      ok := true;
    }

    /** The commit step of apply_changes: the registry, the edited command and
        an open palette take the new shortcut. */
    method Store(registry: MenuRegistry, palette: CommandPaletteDialog, reset: Option<Pair>)
      requires Valid()
      requires var r := Commit(registry.entries, reset, Id(cmd), shortcut);
               DistinctIds(r) && DistinctAssigns(r) && UniqueShortcuts(r, accel)
      modifies this, registry, palette
      ensures Valid() && registry.Valid(accel)
      ensures registry.entries == Commit(old(registry.entries), reset, old(Id(cmd)), old(shortcut))
      ensures registry.saved == CommitSaved(old(registry.saved), reset, old(Id(cmd)), old(shortcut))
      ensures registry.topMenus == old(registry.topMenus)
      ensures registry.saves == old(registry.saves) + 1
      ensures registry.menuRebuilds == old(registry.menuRebuilds) + 1
      ensures cmd == old(cmd).(shortcut := old(shortcut))
      ensures shortcut == old(shortcut) && pressed == old(pressed)
      ensures menuText == old(menuText) && labelText == old(labelText)
      ensures old(palette.open) ==>
                palette.commands == Commit(old(palette.commands), reset, old(Id(cmd)), old(shortcut))
                && palette.Valid() && palette.Synced()
      ensures !old(palette.open) ==> unchanged(palette)
    {
      var target := Id(cmd);
      if palette.open {
        palette.SetCommands(Commit(palette.commands, reset, target, shortcut));
      }
      registry.CommitShortcut(reset, target, shortcut);
      cmd := cmd.(shortcut := shortcut);
    }
  }

  /** The edited command is one of the entries, under the labels the dialog shows. */
  predicate EditsEntry(es: seq<EntryMetadata>, target: Pair, proposed: string) {
    exists t :: 0 <= t < |es| && Id(es[t]) == target && AssignOf(es[t]) == proposed
  }

  /** The checks and questions of apply_changes, up to the commit. */
  method DecideChanges(entries: seq<EntryMetadata>, topMenus: seq<string>, accel: string -> Accel,
                       canBind: string -> bool, isMac: bool, ask: Prompt -> bool,
                       newShortcut: string, proposed: string, shown: string)
    returns (outcome: Outcome)
    ensures outcome == Decide(entries, topMenus, accel, canBind, isMac, ask, newShortcut, proposed, shown)
  {
    var rejection := Validate(newShortcut, accel, canBind, isMac);
    if rejection.Some? {
      return Rejected(rejection.value);
    }
    var d := accel(newShortcut).display;
    var holder := Holder(entries, accel, d);
    if holder.Some? {
      var current := AssignOf(entries[holder.value]);
      if current != proposed {
        if !ask(Reassign(shown, current, proposed)) {
          return Declined;
        }
        return Committed(Some(Id(entries[holder.value])));
      }
      return Committed(None);
    }
    if !isMac {
      var key := AltKey(d);
      if key.Some? {
        var confirmed := ConfirmMenuKeys(topMenus, key.value, shown, proposed, ask);
        if !confirmed {
          return Declined;
        }
      }
    }
    return Committed(None);
  }

  /** Asks about each top menu whose access key is c, stopping at the first "no". */
  method ConfirmMenuKeys(topMenus: seq<string>, c: char, shown: string, proposed: string, ask: Prompt -> bool)
    returns (confirmed: bool)
    ensures confirmed <==> MenuKeysConfirmed(topMenus, c, shown, proposed, ask)
  {
    var i := 0;
    while i < |topMenus|
      invariant 0 <= i <= |topMenus|
      invariant forall k :: 0 <= k < i && Contains(topMenus[k], ['~', c]) ==>
                  ask(MenuKey(shown, MenuName(topMenus[k]), proposed))
    {
      if Contains(topMenus[i], ['~', c]) {
        if !ask(MenuKey(shown, MenuName(topMenus[i]), proposed)) {
          return false;
        }
      }
      i := i + 1;
    }
    return true;
  }

  /** The holder whose shortcut is cleared: the current holder of the display,
      unless it is shown under the proposed name. */
  predicate ResetFits(es: seq<EntryMetadata>, accel: string -> Accel, d: string, proposed: string, reset: Option<Pair>) {
    match Holder(es, accel, d)
    case None => reset == None
    case Some(h) => reset == (if AssignOf(es[h]) == proposed then None else Some(Id(es[h])))
  }

  lemma DecideFits(entries: seq<EntryMetadata>, topMenus: seq<string>, accel: string -> Accel,
                   canBind: string -> bool, isMac: bool, ask: Prompt -> bool,
                   newShortcut: string, proposed: string, shown: string)
    ensures var outcome := Decide(entries, topMenus, accel, canBind, isMac, ask, newShortcut, proposed, shown);
            outcome.Committed? ==> ResetFits(entries, accel, accel(newShortcut).display, proposed, outcome.reset)
  {
  }

  /** Committing keeps shortcuts unique: once the holder has been cleared (or is
      the edited command itself), only the edited command shows the new display. */
  lemma CommitPreservesUnique(es: seq<EntryMetadata>, accel: string -> Accel, reset: Option<Pair>,
                              target: Pair, newShortcut: string, proposed: string)
    requires DistinctIds(es) && DistinctAssigns(es) && UniqueShortcuts(es, accel)
    requires accel([]).display == []
    requires EditsEntry(es, target, proposed)
    requires ResetFits(es, accel, accel(newShortcut).display, proposed, reset)
    ensures var r := Commit(es, reset, target, newShortcut);
            && DistinctIds(r) && DistinctAssigns(r) && UniqueShortcuts(r, accel)
            && forall i :: (0 <= i < |r| && DisplayOf(accel, r[i]) == accel(newShortcut).display
                              && accel(newShortcut).display != []) ==> Id(r[i]) == target
  {
    CommitKeepsDistinct(es, reset, target, newShortcut);
    CommitOnlyTarget(es, accel, reset, target, newShortcut, proposed);
    CommitKeepsUnique(es, accel, reset, target, newShortcut);
  }

  lemma CommitKeepsDistinct(es: seq<EntryMetadata>, reset: Option<Pair>, target: Pair, newShortcut: string)
    requires DistinctIds(es) && DistinctAssigns(es)
    ensures var r := Commit(es, reset, target, newShortcut);
            DistinctIds(r) && DistinctAssigns(r)
  {
    CommitKeepsLabels(es, reset, target, newShortcut);
  }

  /** After the commit only the edited command shows the new display. */
  lemma CommitOnlyTarget(es: seq<EntryMetadata>, accel: string -> Accel, reset: Option<Pair>,
                         target: Pair, newShortcut: string, proposed: string)
    requires DistinctIds(es) && DistinctAssigns(es) && UniqueShortcuts(es, accel)
    requires accel([]).display == []
    requires EditsEntry(es, target, proposed)
    requires ResetFits(es, accel, accel(newShortcut).display, proposed, reset)
    ensures var r := Commit(es, reset, target, newShortcut);
            forall i :: (0 <= i < |r| && DisplayOf(accel, r[i]) == accel(newShortcut).display
                           && accel(newShortcut).display != []) ==> Id(r[i]) == target
  {
    var d := accel(newShortcut).display;
    var r := Commit(es, reset, target, newShortcut);
    var t :| 0 <= t < |es| && Id(es[t]) == target && AssignOf(es[t]) == proposed;
    forall i | 0 <= i < |r| && d != [] && DisplayOf(accel, r[i]) == d ensures Id(r[i]) == target {
      OnlyHolderShows(es, accel, reset, target, newShortcut, proposed, t, i);
    }
  }

  /** Displays stay unique when only the edited command can show the new one. */
  lemma CommitKeepsUnique(es: seq<EntryMetadata>, accel: string -> Accel, reset: Option<Pair>,
                          target: Pair, newShortcut: string)
    requires DistinctIds(es) && UniqueShortcuts(es, accel)
    requires accel([]).display == []
    requires var r := Commit(es, reset, target, newShortcut);
             forall i :: (0 <= i < |r| && DisplayOf(accel, r[i]) == accel(newShortcut).display
                            && accel(newShortcut).display != []) ==> Id(r[i]) == target
    ensures UniqueShortcuts(Commit(es, reset, target, newShortcut), accel)
  {
    var r := Commit(es, reset, target, newShortcut);
    forall i, j | 0 <= i < |r| && 0 <= j < |r| && i != j && DisplayOf(accel, r[i]) != []
      ensures DisplayOf(accel, r[i]) != DisplayOf(accel, r[j])
    {
      CommitAt(es, reset, target, newShortcut, i);
      CommitAt(es, reset, target, newShortcut, j);
    }
  }

  /** A commit changes shortcuts only, never a command's labels. */
  lemma CommitKeepsLabels(es: seq<EntryMetadata>, reset: Option<Pair>, target: Pair, newShortcut: string)
    ensures var r := Commit(es, reset, target, newShortcut);
            |r| == |es| && forall i :: 0 <= i < |r| ==> Id(r[i]) == Id(es[i]) && AssignOf(r[i]) == AssignOf(es[i])
  {
  }

  /** One entry after the commit. */
  lemma CommitAt(es: seq<EntryMetadata>, reset: Option<Pair>, target: Pair, newShortcut: string, k: nat)
    requires k < |es|
    ensures Commit(es, reset, target, newShortcut)[k] ==
              if Id(es[k]) == target then es[k].(shortcut := newShortcut)
              else if reset.Some? && Id(es[k]) == reset.value then es[k].(shortcut := [])
              else es[k]
  {
  }

  /** The entry showing a non-empty display is its holder, when shortcuts are unique. */
  lemma HolderIs(es: seq<EntryMetadata>, accel: string -> Accel, d: string, i: nat)
    requires UniqueShortcuts(es, accel) && i < |es| && d != []
    ensures DisplayOf(accel, es[i]) == d ==> Holder(es, accel, d) == Some(i)
  {
  }

  /** An entry that shows the new display after the commit is the edited command. */
  lemma OnlyHolderShows(es: seq<EntryMetadata>, accel: string -> Accel, reset: Option<Pair>,
                        target: Pair, newShortcut: string, proposed: string, t: nat, i: nat)
    requires DistinctIds(es) && DistinctAssigns(es) && UniqueShortcuts(es, accel)
    requires accel([]).display == []
    requires t < |es| && Id(es[t]) == target && AssignOf(es[t]) == proposed
    requires ResetFits(es, accel, accel(newShortcut).display, proposed, reset)
    requires i < |es| && accel(newShortcut).display != []
    requires DisplayOf(accel, Commit(es, reset, target, newShortcut)[i]) == accel(newShortcut).display
    ensures Id(es[i]) == target
  {
    CommitAt(es, reset, target, newShortcut, i);
    HolderIs(es, accel, accel(newShortcut).display, i);
  }
}

/** Properties of key capture and shortcut validation. */
module ShortcutProofs {
  import opened Wrappers
  import opened Text
  import opened Ordering
  import opened Shortcuts

  // ---------------------------------------------------------------------
  // The modifier list is sorted(set(...))

  lemma {:induction false} KeepMembers(order: seq<string>, names: set<string>)
    ensures forall x :: x in Keep(order, names) <==> x in order && x in names
  {
    if order != [] {
      KeepMembers(order[1..], names);
      assert order == [order[0]] + order[1..];
    }
  }

  lemma {:induction false} KeepSorted(order: seq<string>, names: set<string>)
    requires StrictlySorted(order)
    ensures StrictlySorted(Keep(order, names))
  {
    if order != [] {
      var rest := Keep(order[1..], names);
      KeepSorted(order[1..], names);
      KeepMembers(order[1..], names);
      forall y | y in rest ensures StrLt(order[0], y) {
        var k :| 0 <= k < |order| - 1 && order[1..][k] == y;
        assert order[k + 1] == y;
      }
      var r := (if order[0] in names then [order[0]] else []) + rest;
      forall i, j | 0 <= i < j < |r| ensures StrLt(r[i], r[j]) {
        if order[0] in names {
          assert r[j] == rest[j - 1] && r[j] in rest;
          if i > 0 {
            assert r[i] == rest[i - 1];
          }
        } else {
          assert r[i] == rest[i] && r[j] == rest[j];
        }
      }
    }
  }

  lemma ModifierOrderSorted()
    ensures StrictlySorted(ModifierOrder)
  {
    assert StrLt("Alt", "Cmd") && StrLt("Cmd", "Ctrl") && StrLt("Ctrl", "Option") && StrLt("Option", "Shift");
    forall i, j | 0 <= i < j < |ModifierOrder| ensures StrLt(ModifierOrder[i], ModifierOrder[j]) {
      if j > i + 1 {
        StrLtTransitive(ModifierOrder[i], ModifierOrder[i + 1], ModifierOrder[j]);
        if j > i + 2 {
          StrLtTransitive(ModifierOrder[i + 1], ModifierOrder[i + 2], ModifierOrder[j]);
          if j > i + 3 {
            StrLtTransitive(ModifierOrder[i + 2], ModifierOrder[i + 3], ModifierOrder[j]);
          }
        }
      }
    }
  }

  lemma HeldNamesKnown(pressed: set<string>, isMac: bool)
    ensures forall x :: x in HeldNames(pressed, isMac) ==> x in ModifierOrder
  {
  }

  /** The modifiers of a shortcut are the held ones, once each, in string order. */
  lemma SortedModifiersSpec(pressed: set<string>, isMac: bool)
    ensures StrictlySorted(SortedModifiers(pressed, isMac))
    ensures forall x :: x in SortedModifiers(pressed, isMac) <==> x in HeldNames(pressed, isMac)
  {
    ModifierOrderSorted();
    KeepSorted(ModifierOrder, HeldNames(pressed, isMac));
    KeepMembers(ModifierOrder, HeldNames(pressed, isMac));
    HeldNamesKnown(pressed, isMac);
  }

  /** Any sorted, duplicate-free list of the held modifier names is the one used. */
  lemma SortedModifiersUnique(pressed: set<string>, isMac: bool, other: seq<string>)
    requires StrictlySorted(other)
    requires forall x :: x in other <==> x in HeldNames(pressed, isMac)
    ensures other == SortedModifiers(pressed, isMac)
  {
    SortedModifiersSpec(pressed, isMac);
    StrictlySortedUnique(other, SortedModifiers(pressed, isMac));
  }

  /** A captured shortcut splits back at '+' into its modifiers and its key. */
  lemma ShortcutParts(pressed: set<string>, keysym: string, isMac: bool)
    requires '+' !in keysym
    ensures Split(ShortcutFor(pressed, keysym, isMac), '+') == SortedModifiers(pressed, isMac) + [KeyName(keysym)]
  {
    var parts := SortedModifiers(pressed, isMac) + [KeyName(keysym)];
    KeepMembers(ModifierOrder, HeldNames(pressed, isMac));
    forall k | 0 <= k < |parts| ensures '+' !in parts[k] {
      if k < |parts| - 1 {
        assert parts[k] in SortedModifiers(pressed, isMac);
      }
    }
    SplitJoin(parts, '+');
  }

  // ---------------------------------------------------------------------
  // Key capture

  predicate OnlyModifiers(c: Capture) {
    forall k :: k in c.pressed ==> IsModifierKey(k)
  }

  /** Only modifier keys are ever recorded as held. */
  lemma CaptureHoldsModifiers(c: Capture, keysym: string, isMac: bool)
    requires OnlyModifiers(c)
    ensures OnlyModifiers(PressKey(c, keysym, isMac).0)
    ensures OnlyModifiers(ReleaseKey(c, keysym))
  {
  }

  /** Pressing and releasing a modifier restores the capture state. */
  lemma PressReleaseModifier(c: Capture, keysym: string, isMac: bool)
    requires IsModifierKey(keysym) && keysym !in c.pressed
    ensures ReleaseKey(PressKey(c, keysym, isMac).0, keysym) == c
    ensures PressKey(c, keysym, isMac).1 == Handled
  {
  }

  /** Modifiers alone never change the shortcut; neither does any release. */
  lemma ModifiersKeepShortcut(c: Capture, keysym: string, isMac: bool)
    ensures IsModifierKey(keysym) ==> PressKey(c, keysym, isMac).0.shortcut == c.shortcut
    ensures ReleaseKey(c, keysym).shortcut == c.shortcut
  {
  }

  /** Tab and plain Return leave the state alone and hand over to focus traversal or OK. */
  lemma TabAndReturnPassThrough(c: Capture, isMac: bool)
    ensures PressKey(c, "Tab", isMac) == (c, PassToFocus)
    ensures c.pressed == {} ==> PressKey(c, "Return", isMac) == (c, OkRequested)
  {
  }

  /** Plain BackSpace or Delete clears the shortcut; with a modifier held they are captured. */
  lemma DeletionKeys(c: Capture, keysym: string, isMac: bool)
    requires keysym == "BackSpace" || keysym == "Delete"
    ensures c.pressed == {} ==> PressKey(c, keysym, isMac).0 == c.(shortcut := [])
    ensures c.pressed != {} && OnlyModifiers(c) ==>
              PressKey(c, keysym, isMac).0 == c.(shortcut := ShortcutFor(c.pressed, keysym, isMac))
  {
  }

  /** Any other key becomes the shortcut, with the held modifiers in front. */
  lemma OtherKeysCaptured(c: Capture, keysym: string, isMac: bool)
    requires !IsModifierKey(keysym) && keysym != "Tab"
    requires c.pressed != {} || keysym !in {"BackSpace", "Delete", "Return"}
    ensures PressKey(c, keysym, isMac) == (c.(shortcut := ShortcutFor(c.pressed, keysym, isMac)), Handled)
  {
  }

  /** A one-character key is named by its upper case; a lone "-" by "minus". */
  lemma KeyNames(c: char)
    ensures c != '-' ==> KeyName([c]) == "Key-" + [UpperChar(c)]
    ensures KeyName("-") == "minus"
    ensures KeyName("a") == "Key-A"
  {
  }

  // ---------------------------------------------------------------------
  // The F-key rule

  lemma TrailingDigitsExact(t: string, i: nat)
    requires i < |t| && !IsDigit(t[i])
    requires forall k :: i < k < |t| ==> IsDigit(t[k])
    ensures TrailingDigits(t) == |t| - i - 1
  {
  }

  lemma SearchMeansSpan(d: string)
    ensures SearchFKey(d) ==> exists i, j :: FSpan(d, i, j)
  {
    if FKeyTail(d) {
      var n := TrailingDigits(d);
      assert FSpan(d, |d| - n - 1, |d|);
    } else if |d| > 0 && d[|d| - 1] == '\n' && FKeyTail(d[..|d| - 1]) {
      var t := d[..|d| - 1];
      var m := TrailingDigits(t);
      assert forall k :: 0 <= k < |t| ==> t[k] == d[k];
      assert FSpan(d, |t| - m - 1, |t|);
    }
  }

  lemma SpanMeansSearch(d: string, i: int, j: int)
    requires FSpan(d, i, j)
    ensures SearchFKey(d)
  {
    if j == |d| {
      TrailingDigitsExact(d, i);
    } else {
      var t := d[..|d| - 1];
      assert forall k :: 0 <= k < |t| ==> t[k] == d[k];
      TrailingDigitsExact(t, i);
    }
  }

  /** The computed test is the regular expression's meaning: an F and digits at the
      end, or just before a final newline. */
  lemma FKeyRule(d: string)
    ensures SearchFKey(d) <==> exists i, j :: FSpan(d, i, j)
  {
    SearchMeansSpan(d);
    if exists i, j :: FSpan(d, i, j) {
      var i, j :| FSpan(d, i, j);
      SpanMeansSearch(d, i, j);
    }
  }

  // ---------------------------------------------------------------------
  // Validation

  /** The conditions under which a shortcut is accepted. */
  lemma ValidateAccepts(s: string, accel: string -> Accel, canBind: string -> bool, isMac: bool)
    ensures var d := accel(s).display;
            Validate(s, accel, canBind, isMac).None? <==>
              && (d == [] || Contains(d, "Ctrl") || Contains(d, "Cmd") || Contains(d, "Alt")
                  || exists i, j :: FSpan(d, i, j))
              && !Contains(Lower(d), "option") && !Contains(Lower(d), "tab")
              && d != "F1" && d != "Cmd+Shift+?" && d !in ReservedShortcuts(isMac)
              && (s != [] ==> canBind(accel(s).bindKey))
  {
    FKeyRule(accel(s).display);
  }

  lemma CtrlCReserved(s: string, accel: string -> Accel, canBind: string -> bool)
    requires accel(s).display == "Ctrl+C"
    ensures Validate(s, accel, canBind, false) == Some(Reserved("Ctrl+C"))
  {
    CtrlCFacts();
  }

  /** "Ctrl+C" has a Ctrl, no Option or Tab, and is reserved off a Mac. */
  lemma CtrlCFacts()
    ensures Contains("Ctrl+C", Ctrl)
    ensures !Contains(Lower("Ctrl+C"), "option") && !Contains(Lower("Ctrl+C"), "tab")
    ensures "Ctrl+C" in ReservedShortcuts(false)
  {
    assert Contains("Ctrl+C", Ctrl) by {
      ContainsAt("Ctrl+C", "Ctrl", 0);
    }
    LowerFree("Ctrl+C", "ctrl+c");
    assert "Ctrl+C" in ReservedShortcuts(false) by {
      assert ReservedShortcuts(false)[1] == "Ctrl+C";
    }
  }

  /** A display whose lower case has neither an `o` nor an `a` names neither
      Option nor Tab. */
  lemma LowerFree(d: string, low: string)
    requires Lower(d) == low && 'o' !in low && 'a' !in low
    ensures !Contains(Lower(d), "option") && !Contains(Lower(d), "tab")
  {
    NotContainsChar(low, "option", 'o');
    NotContainsChar(low, "tab", 'a');
  }

  lemma FunctionKeyAccepted(s: string, accel: string -> Accel, canBind: string -> bool, isMac: bool)
    requires accel(s).display == "F12" && s != [] && canBind(accel(s).bindKey)
    ensures Validate(s, accel, canBind, isMac) == None
  {
    F12Facts();
  }

  /** "F12" ends in an F key and has no Option or Tab. */
  lemma F12Facts()
    ensures SearchFKey("F12")
    ensures !Contains(Lower("F12"), "option") && !Contains(Lower("F12"), "tab")
  {
    assert SearchFKey("F12") by {
      assert FSpan("F12", 0, 3);
      SpanMeansSearch("F12", 0, 3);
    }
    LowerFree("F12", "f12");
  }

  lemma PlainKeyNeedsModifier(s: string, accel: string -> Accel, canBind: string -> bool, isMac: bool)
    requires accel(s).display == "Shift+A"
    ensures Validate(s, accel, canBind, isMac) == Some(NeedsModifier)
  {
    ShiftAFacts();
    FirstRuleRejects(s, accel, canBind, isMac);
  }

  /** "Shift+A" has no Ctrl, Cmd or Alt and does not end in an F key. */
  lemma ShiftAFacts()
    ensures !(Contains("Shift+A", Ctrl) || Contains("Shift+A", Cmd) || Contains("Shift+A", "Alt"))
    ensures !SearchFKey("Shift+A")
  {
    var d := "Shift+A";
    assert !Contains(d, Ctrl) by {
      NotContainsChar(d, "Ctrl", 'C');
    }
    assert !Contains(d, Cmd) by {
      NotContainsChar(d, "Cmd", 'C');
    }
    assert !Contains(d, "Alt") by {
      NotContainsChar(d, "Alt", 'l');
    }
    assert !SearchFKey(d) by {
      assert d[|d| - 1] == 'A';
      assert TrailingDigits(d) == 0;
    }
  }

  lemma FirstRuleRejects(s: string, accel: string -> Accel, canBind: string -> bool, isMac: bool)
    requires var d := accel(s).display;
             d != [] && !(Contains(d, Ctrl) || Contains(d, Cmd) || Contains(d, "Alt")) && !SearchFKey(d)
    ensures Validate(s, accel, canBind, isMac) == Some(NeedsModifier)
  {
  }
}
