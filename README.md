# Guiguts dialogs: a verified model

This project models in Dafny the logic of several Guiguts dialogs and proves properties of that model. Guiguts is an editor for preparing books for Project Gutenberg.

The project covers the logic behind these dialogs, without their widgets:

- **Command palette**: ranks the menu commands against a typed query, keeps the history of the last five commands run, and moves the selection with the arrow keys. Files: `palette.dfy`, modules `Palette` and `PaletteProofs`.
- **Shortcut editor**: captures a key combination, checks it against the rejection rules, resolves a clash with another command or a menu access key, and commits it. Files: `shortcuts.dfy`, modules `Shortcuts` and `ShortcutProofs`.
- **Compose Sequence dialog**: the builders that fill the table of keystroke sequences, and the reading of a typed sequence as a table entry, hex code point or decimal code point. Files: `compose.dfy`, modules `Compose` and `ComposeProofs`.
- **Surround With dialog**: guesses the closing text for an opening text. File: `surround.dfy`, module `Surround`.
- **Unicode Search and Unicode Block dialogs**: the word test a character name must pass, the block lookup of a search row, the block list and how a chosen entry is read back, and the grid the character buttons are laid out in. File: `unicode.dfy`, module `UnicodeChars`.
- **HTML Images dialog**: finds `[Illustration ...]` markup, normalises its caption, builds the `<figure>` element with a unique id, and steps to the previous or next image file of the directory. Files: `html.dfy` and `html_proofs.dfy`, modules `Html` and `HtmlProofs`.

Shared helpers:

- `wrappers.dfy`: `Option`.
- `text.dfy`: string operations as Python defines them, with case mapping limited to the letters listed under "Left out". These are `startswith`, `in`, `lower`, `strip`, `split`, `join`, `re.sub` of a literal, and the decimal and hex forms of numbers.
- `ordering.dfy`: Python's string order and a stable sort standing for `list.sort`.

Dialog state that the code updates in place is modelled as Dafny classes:

- `CommandPaletteDialog`, `CommandEditDialog` and `MenuRegistry`;
- `ComposeTable` and `ComposeSequenceDialog`;
- `HtmlImageDialog`.

Each method's contract states the new state in terms of specification functions, and lemmas prove what those functions guarantee. The loops of the code are `while` loops with invariants: the list build, the recentness marking, the separator hiding, the menu access-key questions, the name search, the block lookup, the block list, the button grid, the unique-id loop and the directory scan.

Collaborators that the model cannot see are parameters:

- the fuzzy scorer (`fuzzy`);
- the accelerator converter `process_accel` (`accel`);
- Tk's binding test (`canBind`);
- the yes/no question box (`ask`);
- the diacritic remover (`removeDiacritics`);
- the directory listing (`listing`);
- the directory and file tests (`dirValid`, `isFile`);
- the candidate characters with their names (`candidates`).

Three places where the code departs from the evident design are listed under "Findings". For each, a function models the code as written and a lemma shows the discrepancy. The dialog methods use the corrected form, as listed under "Left out".

## Model

| member | source | states |
|---|---|---|
| Palette.FirstMatchFrom | src/guiguts/misc_dialogs.py:1730-1736 | the index found names the history pair, and no earlier entry from the starting point does; the end of the list when none does |
| Palette.RemoveFirst | src/guiguts/misc_dialogs.py:1861 | `list.remove`: the result holds one occurrence fewer of the pair and otherwise the same elements |
| Palette.BuildEntries | src/guiguts/misc_dialogs.py:1710-1726 | the list starts with the separator exactly when there is a history; every command follows, non-recent, in registry order |
| Palette.MarkFirstMatch | src/guiguts/misc_dialogs.py:1730-1736 | only the first entry naming the pair gets the recentness; the search stops there |
| Palette.AssignRecentness | src/guiguts/misc_dialogs.py:1729-1736 | the loop over the history gives the same list as marking each pair's first match with its position, in history order |
| Palette.RankCommands | src/guiguts/misc_dialogs.py:1674-1764 | the entries kept are the sorted entries without a leading separator, and there is one row per kept entry |
| Palette.HideLeadingSeparator | src/guiguts/misc_dialogs.py:1744-1764 | a separator in first place gets no row and is dropped from the entries; every other entry gets its row, in order |
| Palette.CommandPaletteDialog.constructor | src/guiguts/misc_dialogs.py:1574-1645 | a new palette has an empty query and focus in the query field, and shows the ranked list with its first row selected |
| Palette.CommandPaletteDialog.UpdateList | src/guiguts/misc_dialogs.py:1671-1767 | the entries become the ranking for the current query and history; the first row is selected, or nothing when the list is empty |
| Palette.CommandPaletteDialog.SetList | src/guiguts/misc_dialogs.py:1763-1767 | the new list is shown and its first row selected; the query, history and commands are unchanged |
| Palette.CommandPaletteDialog.SelectedEntry | src/guiguts/misc_dialogs.py:1794-1802 | a command comes back exactly when a row is selected and it is not the separator, and then it is that row's command |
| Palette.CommandPaletteDialog.AddToHistory | src/guiguts/misc_dialogs.py:1852-1866 | the history becomes the pair in front of the old history less that pair, cut to five; the list is re-ranked |
| Palette.CommandPaletteDialog.ExecuteCommand | src/guiguts/misc_dialogs.py:1778-1792 | with Shift, Ctrl, Cmd or Alt held nothing runs; otherwise the selected command is recorded in the history and returned to run, and the dialog closes; with no command selected nothing changes |
| Palette.CommandPaletteDialog.EditCommand | src/guiguts/misc_dialogs.py:1769-1776 | the selected command is recorded in the history and handed to the editor; with no command selected nothing changes |
| Palette.CommandPaletteDialog.MoveInList | src/guiguts/misc_dialogs.py:1814-1834 | the selection moves one row, or two over the separator row; moving up from the first row moves the focus to the query field; the list is unchanged |
| Palette.CommandPaletteDialog.FocusOnList | src/guiguts/misc_dialogs.py:1804-1812 | the focus moves to the list, then the selection moves as with the arrow keys when the list is not empty |
| Palette.CommandPaletteDialog.SetQuery | src/guiguts/misc_dialogs.py:1591 | changing the query text re-ranks the list for the new query |
| Palette.CommandPaletteDialog.SetCommands | src/guiguts/misc_dialogs.py:1523-1524 | after a shortcut edit the palette shows the edited commands, re-ranked |
| Palette.CommandPaletteDialog.HandleListTyping | src/guiguts/misc_dialogs.py:1836-1850 | BackSpace or Delete typed in the list drops the query's last character; a printable character without Ctrl, Cmd or Alt is appended; anything else changes nothing |
| Palette.TypedQuery | src/guiguts/misc_dialogs.py:1836-1850 | deleting leaves the query less its last character, and an empty query empty; a typed printable character is appended; other keys leave the query as it was |
| PaletteProofs.AssignedRecentness | src/guiguts/misc_dialogs.py:1728-1736 | after marking, the first entry naming each history pair carries that pair's position, and every other entry is unchanged |
| PaletteProofs.InitialAt | src/guiguts/misc_dialogs.py:1714-1726 | the list before sorting is the separator (when there is a history) followed by every command as non-recent |
| PaletteProofs.AssignedSeparator | src/guiguts/misc_dialogs.py:1714-1736 | with a well-formed history, only the first entry has the separator rank, and only when there is a history |
| PaletteProofs.SortedSeparator | src/guiguts/misc_dialogs.py:1714-1739 | after sorting there is at most one separator-ranked entry; it is the separator; it exists exactly when there is a history |
| PaletteProofs.BeforeIsStrictOrder | src/guiguts/misc_dialogs.py:1692-1707 | the sort key's tuple comparison is irreflexive and transitive |
| PaletteProofs.BeforeIsStrictWeakOrder | src/guiguts/misc_dialogs.py:1692-1707 | the sort key's tuple comparison is a strict weak order: an entry between two ordered entries is ordered against one of them |
| PaletteProofs.SortedEntriesStable | src/guiguts/misc_dialogs.py:1692-1739 | entries whose keys tie keep the order of the command list |
| PaletteProofs.RankingSorted | src/guiguts/misc_dialogs.py:1692-1739 | the list is ordered by band, then descending score, then recentness, then lower-cased label |
| PaletteProofs.RankingBands | src/guiguts/misc_dialogs.py:1694-1707 | bands never decrease down the list, and within a band scores never increase |
| PaletteProofs.PrefixMatchLeadsItsBand | src/guiguts/misc_dialogs.py:1676-1707 | nothing in a band is placed ahead of a label-prefix match of that band unless it is a prefix match too |
| PaletteProofs.EmptySearchOrder | src/guiguts/misc_dialogs.py:1674-1739 | for an empty query, recent commands come first in history order, then the separator, then the other commands in alphabetical order |
| PaletteProofs.NoLeadingSeparator | src/guiguts/misc_dialogs.py:1744-1764 | the shown list never starts with the separator |
| PaletteProofs.SeparatorShownIff | src/guiguts/misc_dialogs.py:1696-1764 | the separator is shown exactly when there is a history and some recent command matches well enough (score 80 or more) to stay above it |
| PaletteProofs.SortedCommands | src/guiguts/misc_dialogs.py:1714-1739 | sorting keeps every command exactly once, plus the separator when there is a history |
| PaletteProofs.DropSeparatorCommands | src/guiguts/misc_dialogs.py:1744-1764 | dropping the leading separator removes the separator and nothing else |
| PaletteProofs.RankingCommands | src/guiguts/misc_dialogs.py:1710-1764 | every command is listed exactly once, plus the separator when it is shown |
| PaletteProofs.RemoveFirstNotIn | src/guiguts/misc_dialogs.py:1860-1863 | removing a pair that is absent leaves the history unchanged, as the caught `ValueError` does |
| PaletteProofs.RemoveFirstNoDup | src/guiguts/misc_dialogs.py:1861 | removing a pair from a duplicate-free history leaves it duplicate-free and without that pair |
| PaletteProofs.RemoveFirstSplits | src/guiguts/misc_dialogs.py:1861 | `list.remove` of a present pair takes out its first occurrence: the entries before it and after it stay, in their order |
| PaletteProofs.RecordFront | src/guiguts/misc_dialogs.py:1864-1865 | after recording, the pair heads the history |
| PaletteProofs.RecordWellFormed | src/guiguts/misc_dialogs.py:1852-1862 | recording keeps the history at five entries at most, without duplicates and without the separator |
| PaletteProofs.RecordExisting | src/guiguts/misc_dialogs.py:1859-1865 | re-recording a command already in a well-formed history moves it from its position to the front; the other entries keep their order and none is cut |
| PaletteProofs.RecordNew | src/guiguts/misc_dialogs.py:1857-1862 | a new command goes in front, and the oldest entry drops off a full history |
| PaletteProofs.RecordIdempotent | src/guiguts/misc_dialogs.py:1852-1862 | recording the same command twice gives the same history as recording it once |
| PaletteProofs.RecentEntriesMatchHistory | src/guiguts/misc_dialogs.py:1729-1736 | an entry listed with history position i is a command named by history entry i |
| PaletteProofs.HistoryEntriesListed | src/guiguts/misc_dialogs.py:1729-1736 | every history entry that names a command gives its position to some listed entry for that command |
| PaletteProofs.RankingRows | src/guiguts/misc_dialogs.py:1744-1761 | the rows carry at most one separator tag, never on the first row |
| PaletteProofs.MoveSkipsSeparator | src/guiguts/misc_dialogs.py:1814-1834 | a move selects the next row in the direction when it is not the separator, the row beyond when it is; moving up from the first row hands the focus to the search field; past the end nothing changes; the selection never lands on the separator |
| Ordering.SortBy | src/guiguts/misc_dialogs.py:1739 | the sorted list is a permutation of its input |
| Ordering.SortBySorted | src/guiguts/misc_dialogs.py:1739 | for a strict order, the sorted list is in that order |
| Ordering.SortByStable | src/guiguts/misc_dialogs.py:1739 | for a strict weak order, the elements that tie with any given element keep their relative order |
| Shortcuts.TrailingDigits | src/guiguts/misc_dialogs.py:1411 | the count covers exactly the digits at the end of the text: those characters are digits and the one before them is not |
| Shortcuts.HolderFrom | src/guiguts/misc_dialogs.py:1479-1481 | the index found shows the given display shortcut, and no earlier entry does; none when no entry does |
| Shortcuts.SetShortcutOf | src/guiguts/misc_dialogs.py:1499-1503 | exactly the entries with the given label and menu get the new shortcut; the rest are unchanged |
| Shortcuts.MenuRegistry.CommitShortcut | src/guiguts/misc_dialogs.py:1498-1527 | the previous holder loses the shortcut, then the edited command gets it, in the metadata and in the saved table; the preferences are saved and the menus rebuilt once |
| Shortcuts.CommandEditDialog.constructor | src/guiguts/misc_dialogs.py:1329-1379 | the editor starts with no modifiers held, an empty shortcut and an empty command |
| Shortcuts.CommandEditDialog.SetShortcut | src/guiguts/misc_dialogs.py:1386-1390 | the stored shortcut is the value, and the display shows its converted form |
| Shortcuts.CommandEditDialog.Load | src/guiguts/misc_dialogs.py:1392-1397 | the dialog shows the command's labels and its current shortcut |
| Shortcuts.CommandEditDialog.KeyPress | src/guiguts/misc_dialogs.py:1530-1556 | a key press changes the held modifiers, the shortcut and the requested action exactly as the capture rules say |
| Shortcuts.CommandEditDialog.KeyRelease | src/guiguts/misc_dialogs.py:1558-1563 | releasing a modifier forgets it; no release changes the shortcut |
| Shortcuts.CommandEditDialog.FocusOut | src/guiguts/misc_dialogs.py:1376-1377 | losing focus forgets every held modifier and keeps the shortcut |
| Shortcuts.CommandEditDialog.ApplyChanges | src/guiguts/misc_dialogs.py:1399-1528 | success exactly when the checks and the user's answers allow a commit; a failure changes nothing; on success the registry, the edited command and an open palette hold the committed shortcuts, and no two commands show the same shortcut |
| Shortcuts.DecideChanges | src/guiguts/misc_dialogs.py:1405-1515 | the checks run in the code's order: first rejection, then a conflict with another command and its question, then the menu access-key questions |
| Shortcuts.ConfirmMenuKeys | src/guiguts/misc_dialogs.py:1504-1515 | true exactly when the user agrees for every top menu whose access key is the Alt key's character; the questions stop at the first no |
| Shortcuts.DecideFits | src/guiguts/misc_dialogs.py:1478-1503 | a commit clears exactly the current holder of the display shortcut, unless the holder is the command being edited |
| Shortcuts.CommitPreservesUnique | src/guiguts/misc_dialogs.py:1478-1521 | committing keeps labels and shortcuts unique, and only the edited command then shows the new shortcut |
| Shortcuts.CommitAt | src/guiguts/misc_dialogs.py:1498-1521 | after a commit the edited command has the new shortcut, the cleared holder has none, and every other entry is unchanged |
| ShortcutProofs.SortedModifiersSpec | src/guiguts/misc_dialogs.py:1548 | the modifier names in a shortcut are the held ones, each once, in string order |
| ShortcutProofs.SortedModifiersUnique | src/guiguts/misc_dialogs.py:1548 | any strictly sorted list of exactly the held modifier names is the one used, as `sorted(set(...))` |
| ShortcutProofs.ShortcutParts | src/guiguts/misc_dialogs.py:1548-1555 | a captured shortcut splits back at `+` into its modifiers and its key |
| ShortcutProofs.CaptureHoldsModifiers | src/guiguts/misc_dialogs.py:1534-1535 | only modifier keys are ever recorded as held |
| ShortcutProofs.PressReleaseModifier | src/guiguts/misc_dialogs.py:1530-1563 | pressing then releasing a modifier restores the capture state |
| ShortcutProofs.ModifiersKeepShortcut | src/guiguts/misc_dialogs.py:1530-1563 | pressing a modifier on its own, or releasing any key, never changes the shortcut |
| ShortcutProofs.TabAndReturnPassThrough | src/guiguts/misc_dialogs.py:1539-1544 | Tab passes through to focus traversal; Return without modifiers requests OK; neither changes the capture state |
| ShortcutProofs.DeletionKeys | src/guiguts/misc_dialogs.py:1536-1555 | plain BackSpace or Delete clears the shortcut; with a modifier held they are captured like any other key |
| ShortcutProofs.OtherKeysCaptured | src/guiguts/misc_dialogs.py:1545-1555 | any other key becomes the shortcut, with the held modifiers in front |
| ShortcutProofs.KeyNames | src/guiguts/misc_dialogs.py:1549-1553 | a one-character key is named `Key-` and its upper case; a lone `-` is named `minus` |
| Text.LowerUpperChar | src/guiguts/misc_dialogs.py:1553 | the upper case of a letter lower-cases back to it, except the micro sign and final sigma |
| ShortcutProofs.FKeyRule | src/guiguts/misc_dialogs.py:1411 | the F-key test holds exactly when the display ends, or ends before a final newline, in `F` and one or more digits |
| ShortcutProofs.ValidateAccepts | src/guiguts/misc_dialogs.py:1405-1470 | a shortcut is accepted exactly when: it is empty, has Ctrl, Cmd or Alt, or ends in an F key; it has no Option and no Tab; it is not F1, Cmd+Shift+? or a reserved copy, paste, cut or select-all key; and Tk can bind it |
| ShortcutProofs.CtrlCReserved | src/guiguts/misc_dialogs.py:1444-1453 | Ctrl+C is refused as reserved |
| ShortcutProofs.FunctionKeyAccepted | src/guiguts/misc_dialogs.py:1407-1412 | F12 alone is accepted |
| ShortcutProofs.PlainKeyNeedsModifier | src/guiguts/misc_dialogs.py:1407-1418 | Shift+A is refused for lacking Ctrl, Cmd or Alt |
| Compose.ComposeTable.InitChars | src/guiguts/misc_dialogs.py:1066-1074 | the table after the builder is the old table with each sequence written in turn |
| Compose.ComposeTable.InitCharReversible | src/guiguts/misc_dialogs.py:1077-1087 | each sequence and then its reverse are written, in turn |
| Compose.ComposeTable.InitCharCase | src/guiguts/misc_dialogs.py:1090-1101 | each sequence is written with the character, then its lower case with the lower-case character |
| Compose.ComposeTable.InitAccent | src/guiguts/misc_dialogs.py:1052-1063 | base then accent and accent then base are written through the case builder, for each accent |
| Compose.ComposeTable.InitCombining | src/guiguts/misc_dialogs.py:1104-1116 | `+` and each accent give the mark above and `_` and each accent the mark below, each only when that mark is given |
| Compose.ComposeTable.InitGreekAlphabet | src/guiguts/misc_dialogs.py:1119-1128 | `=` and each Latin letter of the Greek order give the Greek capital and, in lower case, the small letter |
| Compose.ComposeTable.InitGreekAccent | src/guiguts/misc_dialogs.py:1131-1157 | the varia and oxia forms in both cases are written, then the iota-subscript forms when there are any |
| Compose.ComposeTable.InitGreekBreathing | src/guiguts/misc_dialogs.py:1160-1191 | the breathing forms are written with the small-letter base in the last small-letter pair, for the letter and then its iota-subscript form |
| Compose.ComposeSequenceDialog.constructor | src/guiguts/misc_dialogs.py:846-863 | the dialog opens with an empty sequence and nothing inserted |
| Compose.ComposeSequenceDialog.InterpretAndInsert | src/guiguts/misc_dialogs.py:877-913 | a sequence that decodes to something insertable is inserted and added to the history; an unforced match closes the dialog; otherwise nothing changes |
| Compose.ComposeSequenceDialog.ApplyChanges | src/guiguts/misc_dialogs.py:865-875 | OK and Apply force an interpretation, keep the dialog open for that step and return true; an interpretation that inserts is also recorded with its sequence, one that does not changes neither list |
| ComposeProofs.CharsLookup | src/guiguts/misc_dialogs.py:1066-1074 | the character builder maps exactly the given sequences to the character |
| ComposeProofs.ReversibleLookup | src/guiguts/misc_dialogs.py:1077-1087 | the reversible builder maps exactly the sequences and their reverses to the character |
| ComposeProofs.CaseLookup | src/guiguts/misc_dialogs.py:1090-1101 | the case builder gives the lower-case character to a lower-cased sequence and the character to any other given sequence; other keys are untouched |
| ComposeProofs.CaseLowerKey | src/guiguts/misc_dialogs.py:1097-1101 | a key already in lower case is only ever given the lower-case character |
| ComposeProofs.AccentLookup | src/guiguts/misc_dialogs.py:1052-1063 | a lower-case key is set by the accent builder exactly when it is the lower case of base-then-accent or accent-then-base, and then to the lower-case character |
| ComposeProofs.CombiningLookup | src/guiguts/misc_dialogs.py:1104-1116 | `+` and an accent give the mark above, `_` and an accent the mark below, only when that mark is given, and nothing else is set |
| ComposeProofs.GreekLettersDistinct | src/guiguts/misc_dialogs.py:1126 | the Latin stand-ins for the Greek letters are distinct capitals |
| ComposeProofs.AlphabetLookup | src/guiguts/misc_dialogs.py:1119-1128 | `=` and the o-th letter give the o-th Greek capital, and in lower case the o-th small letter |
| ComposeProofs.GreekAccentPlainLookup | src/guiguts/misc_dialogs.py:1145-1150 | backslash and backtick give the varia form, slash and apostrophe the next code point, in both cases |
| ComposeProofs.GreekAccentIotaLookup | src/guiguts/misc_dialogs.py:1151-1157 | `=\|` gives the iota-subscript capital and small letter; an accent then `\|` gives the small letter with varia (backslash, backtick) one code point below or with oxia (slash, apostrophe) one above; no three-character key without `\|` is touched |
| ComposeProofs.GreekAccentLookup | src/guiguts/misc_dialogs.py:1131-1157 | the whole accent builder gives the varia and oxia forms for all four accent keys in both cases, and, when an iota form is given, all six iota-subscript keys |
| ComposeProofs.BreathingStepSymmetric | src/guiguts/misc_dialogs.py:1170-1188 | with the small-letter base, every small-letter form is filed under the small-letter key that matches its capital form |
| ComposeProofs.BreathingAsWrittenAsymmetric | src/guiguts/misc_dialogs.py:1188 | as written, that symmetry fails whenever the two bases differ |
| ComposeProofs.BreathingAsWrittenCounterexample | src/guiguts/misc_dialogs.py:1173-1188 | as written, for Ἀ the key `=)~A` gives ἇ (U+1F07) and `=)~a` is never set |
| ComposeProofs.BreathingStepTildeForms | src/guiguts/misc_dialogs.py:1179-1188 | corrected, `=)~A` gives Ἇ (U+1F0F) and `=)~a` gives ἇ (U+1F07) |
| ComposeProofs.HexDigitsSound | src/guiguts/misc_dialogs.py:898-903 | a forced hex match is an optional prefix followed by two or more hex digits, and yields those digits |
| ComposeProofs.HexDigitsComplete | src/guiguts/misc_dialogs.py:898-903 | every allowed prefix followed by two or more hex digits matches, with those digits |
| ComposeProofs.LookupFirst | src/guiguts/misc_dialogs.py:892-893 | a sequence in the table gives its table entry, whatever else it looks like |
| ComposeProofs.UnforcedMatch | src/guiguts/misc_dialogs.py:892-897 | without force, something is found exactly when the sequence is in the table or is four hex digits |
| ComposeProofs.ForcingKeepsMatch | src/guiguts/misc_dialogs.py:892-906 | forcing never changes a match found without force |
| ComposeProofs.FourHexRoundTrip | src/guiguts/misc_dialogs.py:894-896 | the four-digit hex form of a code point below 0x10000 gives that code point back |
| ComposeProofs.PrefixedHexRoundTrip | src/guiguts/misc_dialogs.py:898-903 | forced, `U+` and the hex digits of a code point give that code point back |
| ComposeProofs.DecimalRoundTripForced | src/guiguts/misc_dialogs.py:904-906 | forced, `#` and the decimal digits of a number from 10 up give that number back |
| Surround.WordRun | src/guiguts/misc_dialogs.py:1970 | the greedy `\w+`: the run is all word characters and stops at the end or at a non-word character |
| Surround.LookupDistinct | src/guiguts/misc_dialogs.py:1953-1973 | `dict.get` on the pair table gives each key's own partner |
| Surround.LookupAbsent | src/guiguts/misc_dialogs.py:1973 | a key outside the table is not found |
| Surround.TailShape | src/guiguts/misc_dialogs.py:1970 | `.*>$` matches only attributes without a newline, then `>`, then an optional final newline |
| Surround.AutofillClosesTag | src/guiguts/misc_dialogs.py:1969-1971 | an opening tag, with or without attributes and an optional final newline, is closed by its closing tag |
| Surround.TagShape | src/guiguts/misc_dialogs.py:1970-1971 | conversely, a tag is found only in text of exactly that opening-tag shape |
| Surround.AutofillPairs | src/guiguts/misc_dialogs.py:1953-1973 | every opening in the pair table gets its own partner, and none is taken for a tag |
| Surround.AutofillOtherwiseSame | src/guiguts/misc_dialogs.py:1973 | any other text that is not a tag is its own closing text |
| Surround.AutofillExamples | src/guiguts/misc_dialogs.py:1953-1973 | `<<` gives `>>`, `[**` gives `]`, and `<i>` gives `</i>` |
| Surround.AutofillUnclosedTag | src/guiguts/misc_dialogs.py:1970-1973 | an opening tag without its `>`, such as `<i`, is left as it is |
| UnicodeChars.ScanNames | src/guiguts/misc_dialogs.py:2266-2279 | a code point is listed exactly when its name matches every search word; a search without words lists nothing |
| UnicodeChars.MatchWordsShape | src/guiguts/misc_dialogs.py:2260 | every search word is non-empty and holds no space |
| UnicodeChars.NameMatchesItself | src/guiguts/misc_dialogs.py:2266-2277 | a named character matches a search for its own name |
| UnicodeChars.HyphenPartsHold | src/guiguts/misc_dialogs.py:2273-2276 | each piece of a hyphenated word of the name is among the words offered |
| UnicodeChars.HyphenPieceMatches | src/guiguts/misc_dialogs.py:2265-2277 | a search word matches a piece of a hyphenated word, so BREAK matches NO-BREAK |
| UnicodeChars.WholeWordsOnly | src/guiguts/misc_dialogs.py:2265-2277 | without a hyphen in the name, a word matches exactly when it is a whole word of the name, so BREAK does not match BREAKING |
| UnicodeChars.FirstHolder | src/guiguts/misc_dialogs.py:2323-2326 | the block found holds the code point and no earlier block does; none when no block does |
| UnicodeChars.FindBlock | src/guiguts/misc_dialogs.py:2319-2326 | the lookup loop gives the name of the first block in table order that holds the code point, or the empty name |
| UnicodeChars.BlockNameOfHolder | src/guiguts/misc_dialogs.py:2322-2326 | with disjoint blocks, the name found is that of the one block holding the code point |
| UnicodeChars.StripSuffix | src/guiguts/misc_dialogs.py:2117 | the strip never lengthens the text |
| UnicodeChars.MatchEnd | src/guiguts/misc_dialogs.py:2117 | a match that starts at a parenthesis runs to the next newline, or to the end of the text, and holds no newline |
| UnicodeChars.ShownDisplays | src/guiguts/misc_dialogs.py:1997-2000 | exactly the shown blocks have their display in the list |
| UnicodeChars.BlockList | src/guiguts/misc_dialogs.py:1997-2003 | the values are the commonly used characters entry, then the shown blocks' displays sorted |
| UnicodeChars.StripWithoutParen | src/guiguts/misc_dialogs.py:2117 | text without a parenthesis is left as it is |
| UnicodeChars.CommonNameStrips | src/guiguts/misc_dialogs.py:1982 | the commonly used characters entry strips to itself |
| UnicodeChars.StripRemovesParens | src/guiguts/misc_dialogs.py:2117 | the strip leaves no opening parenthesis behind |
| UnicodeChars.StripDisplay | src/guiguts/misc_dialogs.py:2000 | stripping the display gives back the block's name: the strip inverts the display format |
| UnicodeChars.StripPlainSuffix | src/guiguts/misc_dialogs.py:2117 | a name, spaces and a parenthesised rest without newlines strip to the name |
| UnicodeChars.FindByNameDistinct | src/guiguts/misc_dialogs.py:2122 | with distinct names, looking up a block's name finds that block |
| UnicodeChars.OfferedValuesSelect | src/guiguts/misc_dialogs.py:1997-2124 | choosing the first value selects the commonly used characters, and choosing any other value selects the range of a shown block |
| UnicodeChars.ShownValueSelects | src/guiguts/misc_dialogs.py:2117-2122 | a shown block's display selects that block's range |
| UnicodeChars.BlockListHoldsShown | src/guiguts/misc_dialogs.py:1997-2001 | every shown block's display is in the sorted list |
| UnicodeChars.PlaceButtons | src/guiguts/misc_dialogs.py:2112 | the i-th button shows the i-th character, in column i mod 16 of row i div 16 |
| UnicodeChars.ButtonsDistinct | src/guiguts/misc_dialogs.py:2112 | no two buttons share a cell, and the rows fill in order |
| Html.FirstMarker | src/guiguts/html_tools.py:251-255 | the offset found is where `(<p>)?\[Illustration` first matches from the start; none when it never matches |
| Html.FirstClose | src/guiguts/html_tools.py:261-265 | the offset found is the first `]` from the marker on; none when there is none |
| Html.FindIllo | src/guiguts/html_tools.py:250-274 | the markup found is a non-empty span of the file |
| Html.CandidateBound | src/guiguts/html_tools.py:316-319 | an id the file already contains has a suffix below 10 to the file's length, which bounds the loop |
| Html.FreeId | src/guiguts/html_tools.py:312-319 | the id is the first candidate, from the given suffix on, whose id attribute the file does not contain |
| Html.UniqueId | src/guiguts/html_tools.py:312-319 | the loop ends with the first free candidate: the base, then base_2, base_3 and so on; the file does not contain its id attribute |
| Html.ScanListing | src/guiguts/html_tools.py:232-244 | the loop with its found flag gives the first image after the first image named like the current file |
| Html.HtmlImageDialog.constructor | src/guiguts/html_tools.py:28-159 | opening the dialog starts with an empty file name, selects the first markup and shows its normalised caption with an empty alt text; with no markup, caption and alt text stay empty |
| Html.HtmlImageDialog.NextFile | src/guiguts/html_tools.py:214-244 | the file name becomes the next (or previous) image of its directory when there is one and it is a file; otherwise it is unchanged; nothing else changes |
| Html.HtmlImageDialog.Press | src/guiguts/html_tools.py:66-77 | a file button wired as intended moves the file name as `next_file` does, backwards for Prev |
| Html.HtmlImageDialog.FindIlloMarkup | src/guiguts/html_tools.py:246-290 | the first markup is selected; its caption is shown normalised; the alt text is cleared; the next image is loaded; with no markup, the caption, alt text and file name are unchanged |
| Html.HtmlImageDialog.ConvertToHtml | src/guiguts/html_tools.py:292-331 | without a selection or a file name nothing happens; otherwise the markup is replaced by the figure element with the first free id and the selection is forgotten |
| HtmlProofs.ParagraphsShape | src/guiguts/html_tools.py:284-285 | the paragraph step leaves no newline, and keeps a leading `<p` and a trailing `</p>` |
| HtmlProofs.CloseParagraphShape | src/guiguts/html_tools.py:282-283 | the closing step always leaves the caption ending in `</p>` and keeps a leading `<p` |
| HtmlProofs.NormaliseShape | src/guiguts/html_tools.py:280-285 | every normalised caption starts with `<p`, ends with `</p>` and holds no newline |
| HtmlProofs.NormaliseAsWrittenShape | src/guiguts/html_tools.py:280-285 | the caption chain as written also always gives a one-line caption that starts with `<p` and ends with `</p>` |
| HtmlProofs.NormaliseOneParagraph | src/guiguts/html_tools.py:280-285 | a one-line caption body becomes a single paragraph holding the body |
| HtmlProofs.StripBare | src/guiguts/html_tools.py:280-281 | the two strips take `[Illustration: ` and `]` off bare markup, leaving the body |
| HtmlProofs.NoNewlineParagraphs | src/guiguts/html_tools.py:284-285 | text without newlines passes the paragraph step unchanged |
| HtmlProofs.BlankLineBreaksParagraph | src/guiguts/html_tools.py:284-285 | a blank line becomes `</p>`, the return arrow and `<p>` |
| HtmlProofs.SingleNewlineBecomesArrow | src/guiguts/html_tools.py:285 | a single newline becomes the return arrow |
| HtmlProofs.WrappedMarkupKeptAsWritten | src/guiguts/html_tools.py:280-283 | as written, markup wrapped in `<p>...</p>` comes back whole as the caption |
| HtmlProofs.WrappedMarkupUnwrapped | src/guiguts/html_tools.py:250-283 | corrected, wrapped markup gives the same caption as the bare markup |
| HtmlProofs.FindIlloSpan | src/guiguts/html_tools.py:250-274 | the span starts at the first marker and ends just after the first `]` from there, plus a directly following `</p>` |
| HtmlProofs.FindIlloNone | src/guiguts/html_tools.py:250-268 | nothing is found exactly when there is no marker or no `]` after it |
| HtmlProofs.ReplaceCharInverse | src/guiguts/html_tools.py:302 | turning the arrows into newline-and-indent is undone by the reverse replacement, when the text has no such newline |
| HtmlProofs.AltEscaping | src/guiguts/html_tools.py:306-308 | the escaped alt text holds no double quote; the attribute is empty exactly when the alt text is; unescaping gives the alt text back when it had no `&` |
| HtmlProofs.CaptionBlockShape | src/guiguts/html_tools.py:299-304 | the caption block is empty exactly when the caption is, holds no return arrow, and its lines read back as the indented caption |
| HtmlProofs.FigureOfParagraphCaption | src/guiguts/html_tools.py:300-304 | a caption starting with `<p` is laid out as an indented paragraph inside the figcaption |
| HtmlProofs.ScanIsAfter | src/guiguts/html_tools.py:232-244 | the scan picks the image that follows the current file among the images of the listing |
| HtmlProofs.OrderIncreasing | src/guiguts/html_tools.py:233 | a listing without repeats sorts into increasing order, or into decreasing order when reversed |
| HtmlProofs.ImagesIncreasing | src/guiguts/html_tools.py:234-236 | skipping non-images keeps the order, and keeps only names of the listing |
| HtmlProofs.AfterIncreasing | src/guiguts/html_tools.py:237-242 | in an increasing list, the element after the current one is greater |
| HtmlProofs.ScanPicksLater | src/guiguts/html_tools.py:232-242 | the next file is alphabetically after the current one, and the previous file alphabetically before it |
| HtmlProofs.AfterIsImage | src/guiguts/html_tools.py:237-240 | the element picked is one of the list |
| HtmlProofs.ImagesAreImages | src/guiguts/html_tools.py:234-236 | every name kept has a `.jpg`, `.gif` or `.png` extension |
| HtmlProofs.BasenameInDir | src/guiguts/html_tools.py:225-239 | a listed name put in the current file's directory has that name as its basename |
| HtmlProofs.NextButtonInertAsWritten | src/guiguts/html_tools.py:72-77 | as wired, when a next image exists, pressing Next File still does not load it |
| HtmlProofs.ButtonsMoveInOrder | src/guiguts/html_tools.py:66-77 | wired as intended, Next moves to an image alphabetically after the current file and Prev to one before it |

## Left out

- Widgets and layout are not modelled: tooltips, column widths, scrolling, focus handling beyond the palette's list and query field, the thumbnail and the busy cursor.
- The fuzzy score (`process.extractOne`) is a parameter, limited to whole percentages.
- `process_accel` is a parameter, assumed to turn the empty shortcut into the empty display.
- Tk's binding test and the yes/no question box are parameters.
- Running the chosen command is not modelled: `ExecuteCommand` returns the command instead.
- Reading and writing the preferences is not modelled: the history and the saved shortcut table are fields.
- `menubar_metadata` and `EntryMetadata` are not part of this model. Their display labels are stored fields. `metadata_from_shortcut` is modelled as the first entry showing the display shortcut, and none for the empty display.
- Palette.Row: the shortcut column holds the stored shortcut, without the display conversion of `display_shortcut`.
- Palette.CommandPaletteDialog.MoveInList: a move past the end of the list onto a final separator row raises `IndexError` in the code; the model leaves the state unchanged there.
- `str.lower` and `str.upper` are modelled for ASCII, the Latin-1 letters, `œ`, `ÿ`, the basic Greek letters and the Greek vowels with varia, plus (lower case only) the capital sharp s `ẞ` and the three Greek capitals with prosgegrammeni `ᾼ`, `ῌ` and `ῼ`; other letters map to themselves. Letters whose upper case is two characters, such as `ß` and the Greek letters with iota subscript, keep their own character. `str.isprintable` is exact up to U+03FF and over U+2000-206F; above U+03FF it also excludes U+1680, U+3000, U+FEFF and the private use area. Other unassigned and format code points above U+03FF are taken as printable. The regular expression classes `\w` and `\d` are ASCII only.
- Compose.ComposeTable.InitGreekBreathing: models the corrected line 1188 of `misc_dialogs.py`, filing `=)~` with the small-letter base. The code as written is `Compose.BreathingStepAsWritten`, under "Findings".
- Html.HtmlImageDialog.constructor: shows the caption normalised by the corrected chain, which first drops a wrapping paragraph around the markup. The chain at lines 280-285 of `html_tools.py` as written is `Html.NormaliseAsWritten`, under "Findings".
- Html.HtmlImageDialog.FindIlloMarkup: uses the same corrected caption chain as the constructor, not lines 280-285 as written.
- Html.HtmlImageDialog.Press: models the Next File button wired as intended, calling `next_file`. Line 75 of `html_tools.py` as written leaves the button inert; that is `Html.AfterPressAsWritten`, under "Findings".
- `init_compose_dict`, the list of builder calls that fills the table, is not modelled; the builders are.
- Compose.ComposeSequenceDialog.InterpretAndInsert: `chr` of a code point above 0x10FFFF raises `ValueError` in the code; the model inserts nothing instead. Where the insertion goes is not modelled.
- The Compose help dialog and its character list are not modelled.
- UnicodeChars.ScanNames: the scan over every code point and `unicodedata.name` are replaced by a given list of candidates with their names. The list's order is not stated in the contract.
- The fallbacks of `find_matches` are not modelled: the hex code point and the single character. They depend on `int(..., 16)` and `unicodedata`.
- `add_row`'s row text and its "new since Unicode 3.2" flag are not modelled, only the block lookup.
- The block table `_unicode_blocks` and the character list `_common_characters` are data and not part of this model; blocks are a parameter.
- `block_selected`'s button labels are generic: `chr` of each code point is not modelled. A name that is not in the block table raises `KeyError` in the code; `UnicodeChars.Selected` gives none there.
- The button callbacks of the block dialog (press, release, hover) are not modelled.
- The Tk text widget is a string, indices are offsets, and there is no final newline.
- Undo, spotlighting and the cursor move of `find_illo_markup` are not modelled.
- `DiacriticRemover` is a parameter.
- The directory listing, `os.path.isdir` and `os.path.isfile` are parameters.
- `os.path.basename` splits on `/` only. `load_file`'s `normpath` and `relpath` are simplified: the file name becomes the current directory part followed by the listed name.
- `load_file`'s image loading and its error paths are not modelled, and neither is `clear_image`.
- Html.HtmlImageDialog.NextFile: with no current file the code opens the file chooser; the model changes nothing.
- The bell (`sound_bell`) and error logging are not modelled.

## Findings

| source | as written | input that shows it | evidently intended | confidence | as-written member | corrected member |
|---|---|---|---|---|---|---|
| src/guiguts/misc_dialogs.py:1188 | the last small-letter pair files `=)~` with the capital base | `init_greek_breathing("Ἀ", "A", …)`: `=)~A` gives ἇ (U+1F07), and `=)~a` is never set | `"=)~" + lbase`, so that `=)~a` gives ἇ and `=)~A` keeps Ἇ (U+1F0F) | high; not executed | ComposeProofs.BreathingAsWrittenCounterexample | ComposeProofs.BreathingStepTildeForms |
| src/guiguts/html_tools.py:280-283 | the prefix strip is anchored at `^\[`, although the finder takes in a leading `<p>` and a trailing `</p>` (lines 251-253 and 261-265) | markup `<p>[Illustration: Map]</p>` gives the caption `<p>[Illustration: Map]</p>` | the wrapping paragraph is dropped, giving `<p>Map</p>` | medium; not executed | HtmlProofs.WrappedMarkupKeptAsWritten | HtmlProofs.WrappedMarkupUnwrapped |
| src/guiguts/html_tools.py:72-77 | the Next File button's `lambda: self.next_file` only names the method and never calls it | a current file with a next image in its directory: pressing Next File leaves the file name unchanged | `lambda: self.next_file()`, as the Prev File button does with `reverse=True` | high; not executed | HtmlProofs.NextButtonInertAsWritten | HtmlProofs.ButtonsMoveInOrder |
