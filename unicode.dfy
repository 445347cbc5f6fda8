/** The Unicode search and block dialogs: which character names a search
    matches, which block a code point belongs to, the block list offered for
    choice and how a choice is read back, and where the character buttons go. */
module UnicodeChars {
  import opened Wrappers
  import opened Text
  import opened Ordering

  // ---------------------------------------------------------------------
  // Name search

  /** The non-empty fields of s split on spaces, in order. */
  function NonEmpty(fields: seq<string>): (r: seq<string>)
    ensures forall w :: w in r <==> w in fields && w != []
  {
    if fields == [] then []
    else if fields[0] == [] then NonEmpty(fields[1..])
    else [fields[0]] + NonEmpty(fields[1..])
  }

  function LowerAll(words: seq<string>): (r: seq<string>)
    ensures |r| == |words|
    ensures forall i :: 0 <= i < |words| ==> r[i] == Lower(words[i])
  {
    if words == [] then [] else [Lower(words[0])] + LowerAll(words[1..])
  }

  /** `[x.lower() for x in string.split(" ") if x]`: the words of a search. */
  function MatchWords(query: string): seq<string> {
    LowerAll(NonEmpty(Split(query, ' ')))
  }

  /** The pieces of every hyphenated word, split on the hyphens. */
  function HyphenParts(words: seq<string>): seq<string> {
    if words == [] then []
    else if '-' in words[0] then Split(words[0], '-') + HyphenParts(words[1..])
    else HyphenParts(words[1..])
  }

  /** The words a name offers: its lower-cased space-separated words, then the
      pieces of its hyphenated words. */
  function NameWords(name: string): seq<string> {
    var words := Split(Lower(name), ' ');
    words + HyphenParts(words)
  }

  /** A character with this name is listed: it has a name and every search
      word is one of the name's words or hyphen pieces. */
  predicate NameMatches(name: string, matchWords: seq<string>) {
    name != [] && forall w :: w in matchWords ==> w in NameWords(name)
  }

  /** The search loop over the candidates the character database offers, as
      (code point, name) pairs: a code point is listed exactly when its name
      matches every search word. A search without words lists nothing. */
  method ScanNames(candidates: seq<(nat, string)>, query: string) returns (found: seq<nat>)
    ensures MatchWords(query) == [] ==> found == []
    ensures forall n :: n in found <==>
      MatchWords(query) != [] && exists k :: 0 <= k < |candidates| && candidates[k].0 == n && NameMatches(candidates[k].1, MatchWords(query))
  {
    var words := MatchWords(query);
    found := [];
    if |words| > 0 {
      var k := 0;
      while k < |candidates|
        invariant 0 <= k <= |candidates|
        invariant forall n :: n in found <==>
          exists j :: 0 <= j < k && candidates[j].0 == n && NameMatches(candidates[j].1, words)
      {
        if NameMatches(candidates[k].1, words) {
          found := found + [candidates[k].0];
        }
        k := k + 1;
      }
    }
  }

  // ---------------------------------------------------------------------
  // Properties of the name search

  /** Every search word is non-empty and holds no space. */
  lemma MatchWordsShape(query: string)
    ensures forall i :: 0 <= i < |MatchWords(query)| ==> MatchWords(query)[i] != [] && ' ' !in MatchWords(query)[i]
  {
    var fields := Split(query, ' ');
    SplitFieldsFree(query, ' ');
    var ws := NonEmpty(fields);
    forall i | 0 <= i < |ws| ensures Lower(ws[i]) != [] && ' ' !in Lower(ws[i]) {
      assert ws[i] in ws;
      LowerKeepsSpaces(ws[i]);
    }
  }

  /** Lower-casing neither makes nor removes a space. */
  lemma LowerKeepsSpaces(s: string)
    ensures |Lower(s)| == |s|
    ensures ' ' in Lower(s) <==> ' ' in s
  {
    if ' ' in s {
      var i :| 0 <= i < |s| && s[i] == ' ';
      assert Lower(s)[i] == ' ';
    }
    if ' ' in Lower(s) {
      var i :| 0 <= i < |Lower(s)| && Lower(s)[i] == ' ';
      LowerCharSpace(s[i]);
    }
  }

  /** Splitting the lower-cased text on spaces gives the lower-cased fields. */
  lemma {:induction false} SplitLower(s: string)
    ensures Split(Lower(s), ' ') == LowerAll(Split(s, ' '))
    decreases |s|
  {
    if s != [] {
      var l := Lower(s);
      var rest := Split(s[1..], ' ');
      var lrest := Split(Lower(s[1..]), ' ');
      assert lrest == LowerAll(rest) by {
        SplitLower(s[1..]);
      }
      assert l[1..] == Lower(s[1..]);
      LowerCharSpace(s[0]);
      if s[0] == ' ' {
        assert l[0] == ' ';
        assert Split(l, ' ') == [[]] + lrest;
        LowerAllCons([], rest);
      } else {
        var w := [s[0]] + rest[0];
        assert l[0] != ' ' && l[0] == LowerChar(s[0]);
        assert Split(l, ' ') == [[l[0]] + lrest[0]] + lrest[1..];
        assert Lower(w) == [l[0]] + Lower(rest[0]);
        assert LowerAll(rest)[1..] == LowerAll(rest[1..]);
        LowerAllCons(w, rest[1..]);
      }
    }
  }

  lemma LowerAllCons(w: string, ws: seq<string>)
    ensures LowerAll([w] + ws) == [Lower(w)] + LowerAll(ws)
  {
    assert ([w] + ws)[1..] == ws;
  }

  /** A name matches a search for its own words. */
  lemma NameMatchesItself(name: string)
    requires name != []
    ensures NameMatches(name, MatchWords(name))
  {
    var fields := Split(name, ' ');
    SplitLower(name);
    forall w | w in MatchWords(name) ensures w in NameWords(name) {
      var i :| 0 <= i < |MatchWords(name)| && MatchWords(name)[i] == w;
      var x := NonEmpty(fields)[i];
      assert x in NonEmpty(fields);
      var j :| 0 <= j < |fields| && fields[j] == x;
      assert Split(Lower(name), ' ')[j] == w;
    }
  }

  /** Each piece of a hyphenated word is offered. */
  lemma {:induction false} HyphenPartsHold(words: seq<string>, i: nat, piece: string)
    requires i < |words| && '-' in words[i] && piece in Split(words[i], '-')
    ensures piece in HyphenParts(words)
    decreases i
  {
    if i > 0 {
      HyphenPartsHold(words[1..], i - 1, piece);
    }
  }

  /** A search word matches a piece of a hyphenated word of the name, so BREAK
      finds NO-BREAK SPACE. */
  lemma HyphenPieceMatches(name: string, i: nat, w: string)
    requires name != []
    requires i < |Split(Lower(name), ' ')| && '-' in Split(Lower(name), ' ')[i]
    requires w in Split(Split(Lower(name), ' ')[i], '-')
    ensures NameMatches(name, [w])
  {
    HyphenPartsHold(Split(Lower(name), ' '), i, w);
  }

  /** Without hyphens, a name offers exactly its lower-cased words, so a search
      word must equal a whole word: BREAK does not find NONBREAKING. */
  lemma {:induction false} NoHyphenParts(words: seq<string>)
    requires forall k :: 0 <= k < |words| ==> '-' !in words[k]
    ensures HyphenParts(words) == []
  {
    if words != [] {
      NoHyphenParts(words[1..]);
    }
  }

  /** Without a hyphen in the name, a search word matches only a whole word of
      the lower-cased name: BREAK does not find NONBREAKING. */
  lemma WholeWordsOnly(name: string, w: string)
    requires '-' !in name
    ensures NameMatches(name, [w]) <==> name != [] && w in Split(Lower(name), ' ')
  {
    var words := Split(Lower(name), ' ');
    forall c | c in Lower(name) ensures c != '-' {
      var i :| 0 <= i < |Lower(name)| && Lower(name)[i] == c;
      assert c == LowerChar(name[i]) && name[i] != '-';
    }
    FieldsAvoid(Lower(name), ' ', '-');
    NoHyphenParts(words);
    assert NameWords(name) == words;
  }

  /** A character absent from a text is absent from each of its fields. */
  lemma {:induction false} FieldsAvoid(s: string, sep: char, c: char)
    requires c !in s
    ensures forall k :: 0 <= k < |Split(s, sep)| ==> c !in Split(s, sep)[k]
    decreases |s|
  {
    if s != [] {
      assert c !in s[1..] by {
        forall i | 0 <= i < |s| - 1 ensures s[1..][i] != c { assert s[1..][i] == s[i + 1]; }
      }
      FieldsAvoid(s[1..], sep, c);
      var rest := Split(s[1..], sep);
      if s[0] != sep {
        assert Split(s, sep) == [[s[0]] + rest[0]] + rest[1..];
        assert forall k :: 1 <= k < |Split(s, sep)| ==> Split(s, sep)[k] == rest[k];
      } else {
        assert forall k :: 1 <= k < |Split(s, sep)| ==> Split(s, sep)[k] == rest[k - 1];
      }
    }
  }

  // ---------------------------------------------------------------------
  // Blocks

  /** An entry of the block table: its name, first and last code point, and
      whether it is offered in the block list. */
  datatype Block = Block(name: string, first: nat, last: nat, show: bool)

  predicate Holds(b: Block, ordinal: nat) {
    b.first <= ordinal <= b.last
  }

  /** Index of the first block from i on that holds the code point. */
  function FirstHolder(blocks: seq<Block>, ordinal: nat, i: nat): (r: Option<nat>)
    requires i <= |blocks|
    ensures r.Some? ==> i <= r.value < |blocks| && Holds(blocks[r.value], ordinal)
    ensures r.Some? ==> forall k :: i <= k < r.value ==> !Holds(blocks[k], ordinal)
    ensures r.None? ==> forall k :: i <= k < |blocks| ==> !Holds(blocks[k], ordinal)
    decreases |blocks| - i
  {
    if i == |blocks| then None
    else if Holds(blocks[i], ordinal) then Some(i)
    else FirstHolder(blocks, ordinal, i + 1)
  }

  /** The name `add_row` shows for a code point: the first block in table
      order that holds it, or "" when none does. */
  function BlockName(blocks: seq<Block>, ordinal: nat): string {
    match FirstHolder(blocks, ordinal, 0)
    case Some(k) => blocks[k].name
    case None => ""
  }

  /** The lookup loop of `add_row`, stopping at the first block that holds
      the code point. */
  method FindBlock(blocks: seq<Block>, ordinal: nat) returns (name: string)
    ensures name == BlockName(blocks, ordinal)
  {
    name := "";
    var k := 0;
    while k < |blocks|
      invariant 0 <= k <= |blocks|
      invariant FirstHolder(blocks, ordinal, 0) == FirstHolder(blocks, ordinal, k)
    {
      if Holds(blocks[k], ordinal) {
        name := blocks[k].name;
        break;
      }
      k := k + 1;
    }
  }

  /** The block ranges are pairwise disjoint, as Unicode's blocks are. */
  predicate Disjoint(blocks: seq<Block>) {
    forall i, j :: 0 <= i < j < |blocks| ==> blocks[i].last < blocks[j].first || blocks[j].last < blocks[i].first
  }

  /** With disjoint blocks the lookup finds the one block that holds the code
      point, and a code point outside every block gets no name. */
  lemma BlockNameOfHolder(blocks: seq<Block>, ordinal: nat, k: nat)
    requires Disjoint(blocks) && k < |blocks| && Holds(blocks[k], ordinal)
    ensures BlockName(blocks, ordinal) == blocks[k].name
  {
    var r := FirstHolder(blocks, ordinal, 0);
    assert r.Some?;
    var m := r.value;
    assert m <= k;
    DisjointHolders(blocks, ordinal, m, k);
  }

  lemma DisjointHolders(blocks: seq<Block>, ordinal: nat, i: nat, j: nat)
    requires Disjoint(blocks) && i < |blocks| && j < |blocks|
    ensures Holds(blocks[i], ordinal) && Holds(blocks[j], ordinal) ==> i == j
  {
  }

  /** The prefix of s before its first c, as an index: |s| when s has no c. */
  function IndexOf(s: string, c: char): (k: nat)
    ensures k <= |s| && c !in s[..k]
    ensures k < |s| ==> s[k] == c
    decreases |s|
  {
    if s == [] then 0
    else if s[0] == c then 0
    else
      var k := 1 + IndexOf(s[1..], c);
      assert s[..k] == [s[0]] + s[1..][..k - 1];
      k
  }

  /** Start of the run of spaces that ends at index j. */
  function SpaceRunStart(s: string, j: nat): (i: nat)
    requires j <= |s|
    ensures i <= j
    ensures forall k :: i <= k < j ==> s[k] == ' '
    ensures i == 0 || s[i - 1] != ' '
  {
    if j == 0 || s[j - 1] != ' ' then j else SpaceRunStart(s, j - 1)
  }

  /** `re.sub(r" *\(.*", "", s)`: each match starts at the spaces before the
      first remaining `(` and runs to the next newline or the end. */
  function StripSuffix(s: string): (r: string)
    ensures |r| <= |s|
    decreases |s|
  {
    var j := IndexOf(s, '(');
    if j == |s| then s
    else s[..SpaceRunStart(s, j)] + StripSuffix(s[MatchEnd(s, j)..])
  }

  /** Where a match starting with the `(` at j ends: the next newline, or
      the end of the text (`.` does not match a newline). */
  function MatchEnd(s: string, j: nat): (e: nat)
    requires j < |s| && s[j] == '('
    ensures j < e <= |s| && '\n' !in s[j..e]
    ensures e < |s| ==> s[e] == '\n'
  {
    var k := IndexOf(s[j..], '\n');
    assert s[j..][0] == '(';
    assert s[j..][..k] == s[j..j + k];
    j + k
  }

  /** An entry of the block list: `f"{name}   ({beg:04X}–{end:04X})"`. */
  function Display(b: Block): (d: string) {
    b.name + "   (" + Hex04Upper(b.first) + "–" + Hex04Upper(b.last) + ")"
  }

  const CommonName: string := "Commonly Used Characters"

  /** The displays of the blocks that are shown, in table order. */
  function ShownDisplays(blocks: seq<Block>): (r: seq<string>)
    ensures forall k :: 0 <= k < |blocks| && blocks[k].show ==> Display(blocks[k]) in r
    ensures forall d :: d in r ==> exists k :: 0 <= k < |blocks| && blocks[k].show && Display(blocks[k]) == d
  {
    if blocks == [] then []
    else
      var rest := ShownDisplays(blocks[1..]);
      assert forall k :: 1 <= k < |blocks| ==> blocks[k] == blocks[1..][k - 1];
      if blocks[0].show then [Display(blocks[0])] + rest else rest
  }

  /** The combo box values, built by the dialog's loop: the shown displays,
      sorted, after the commonly used characters entry. */
  method BlockList(blocks: seq<Block>) returns (values: seq<string>)
    ensures values == [CommonName] + SortBy(ShownDisplays(blocks), StrLt)
  {
    var list := [];
    var k := 0;
    while k < |blocks|
      invariant 0 <= k <= |blocks|
      invariant list == ShownDisplays(blocks[..k])
    {
      assert ShownDisplays(blocks[..k + 1]) == list + (if blocks[k].show then [Display(blocks[k])] else []) by {
        assert blocks[..k + 1] == blocks[..k] + [blocks[k]];
        ShownDisplaysAppend(blocks[..k], blocks[k]);
      }
      if blocks[k].show {
        list := list + [Display(blocks[k])];
      }
      k := k + 1;
    }
    assert blocks[..k] == blocks;
    values := [CommonName] + SortBy(list, StrLt);
  }

  lemma {:induction false} ShownDisplaysAppend(blocks: seq<Block>, b: Block)
    ensures ShownDisplays(blocks + [b]) == ShownDisplays(blocks) + (if b.show then [Display(b)] else [])
    decreases |blocks|
  {
    if blocks == [] {
      assert [] + [b] == [b];
    } else {
      assert (blocks + [b])[1..] == blocks[1..] + [b];
      ShownDisplaysAppend(blocks[1..], b);
    }
  }

  /** What a chosen value selects: the commonly used characters, a block's
      range, or nothing (a name outside the table raises KeyError). */
  datatype Selection = Common | Range(first: nat, last: nat)

  function FindByName(blocks: seq<Block>, name: string): Option<Block> {
    if blocks == [] then None
    else if blocks[0].name == name then Some(blocks[0])
    else FindByName(blocks[1..], name)
  }

  /** `block_selected`: the value with its range suffix stripped names either
      the commonly used characters or a block of the table. */
  function Selected(blocks: seq<Block>, value: string): Option<Selection> {
    var name := StripSuffix(value);
    if name == CommonName then Some(Common)
    else
      match FindByName(blocks, name)
      case Some(b) => Some(Range(b.first, b.last))
      case None => None
  }

  /** Names the list format can carry back: no parenthesis, no newline, no
      trailing space, and not the name of the commonly used characters. */
  predicate PlainName(name: string) {
    '(' !in name && '\n' !in name && (name == [] || name[|name| - 1] != ' ') && name != CommonName
  }

  predicate Names(blocks: seq<Block>) {
    && (forall k :: 0 <= k < |blocks| ==> PlainName(blocks[k].name))
    && (forall i, j :: 0 <= i < j < |blocks| ==> blocks[i].name != blocks[j].name)
  }

  // ---------------------------------------------------------------------
  // Properties of the block list

  /** Text without a parenthesis is left as it is. */
  lemma StripWithoutParen(s: string)
    requires '(' !in s
    ensures StripSuffix(s) == s
  {
    assert s[..|s|] == s;
  }

  /** The commonly used characters entry has no range suffix to strip. */
  lemma CommonNameStrips()
    ensures StripSuffix(CommonName) == CommonName
  {
    forall i | 0 <= i < |CommonName| ensures CommonName[i] != '(' {
      assert CommonName[i] in "Commonly UsedChartesc";
    }
    StripWithoutParen(CommonName);
  }

  /** The strip leaves no parenthesis behind. */
  lemma {:induction false} StripRemovesParens(s: string)
    ensures '(' !in StripSuffix(s)
    decreases |s|
  {
    var j := IndexOf(s, '(');
    if j == |s| {
      assert s[..j] == s;
    } else {
      var i := SpaceRunStart(s, j);
      var e := MatchEnd(s, j);
      StripRemovesParens(s[e..]);
      var head := s[..i];
      var tail := StripSuffix(s[e..]);
      assert '(' !in head by {
        assert head == s[..j][..i];
      }
      assert '(' !in head + tail;
    }
  }

  /** The strip inverts the display format: it gives back the block's name. */
  lemma StripDisplay(b: Block)
    requires PlainName(b.name)
    ensures StripSuffix(Display(b)) == b.name
  {
    var h1, h2 := Hex04Upper(b.first), Hex04Upper(b.last);
    var rest := "(" + h1 + "–" + h2 + ")";
    assert "   (" == "   " + "(";
    RegroupDisplay(b.name, "   ", "(", h1, "–", h2, ")");
    HexNoNewline(b.first);
    HexNoNewline(b.last);
    assert '\n' !in rest;
    StripPlainSuffix(b.name, rest);
  }

  lemma RegroupDisplay(a: string, sp: string, o: string, h1: string, dash: string, h2: string, c: string)
    ensures a + (sp + o) + h1 + dash + h2 + c == a + sp + (o + h1 + dash + h2 + c)
  {
  }

  /** A name, three spaces and a parenthesised rest without newlines strips
      back to the name. */
  lemma StripPlainSuffix(name: string, rest: string)
    requires '(' !in name && (name == [] || name[|name| - 1] != ' ')
    requires |rest| > 0 && rest[0] == '(' && '\n' !in rest
    ensures StripSuffix(name + "   " + rest) == name
  {
    var d := name + "   " + rest;
    var n := |name|;
    assert d[..n + 3] == name + "   ";
    assert '(' !in d[..n + 3];
    IndexOfAt(d, '(', n + 3);
    assert d[n + 3..] == rest;
    IndexOfAbsent(rest, '\n');
    assert d[n + 2] == ' ' && d[n + 1] == ' ' && d[n] == ' ';
    assert n > 0 ==> d[n - 1] == name[n - 1];
    assert SpaceRunStart(d, n + 3) == n;
    assert d[|d|..] == [];
    assert d[..n] == name;
  }

  lemma {:induction false} IndexOfAt(s: string, c: char, j: nat)
    requires j < |s| && s[j] == c && c !in s[..j]
    ensures IndexOf(s, c) == j
    decreases j
  {
    if j > 0 {
      assert s[0] == s[..j][0];
      assert s[1..][..j - 1] == s[..j][1..];
      IndexOfAt(s[1..], c, j - 1);
    }
  }

  lemma IndexOfAbsent(s: string, c: char)
    requires c !in s
    ensures IndexOf(s, c) == |s|
  {
  }

  lemma HexNoNewline(v: nat)
    ensures '\n' !in Hex04Upper(v)
  {
    var h := Hex04Upper(v);
    forall i | 0 <= i < |h| ensures h[i] != '\n' {
      assert IsHexDigit(h[i]);
    }
  }

  lemma {:induction false} FindByNameDistinct(blocks: seq<Block>, k: nat)
    requires k < |blocks|
    requires forall i, j :: 0 <= i < j < |blocks| ==> blocks[i].name != blocks[j].name
    ensures FindByName(blocks, blocks[k].name) == Some(blocks[k])
    decreases k
  {
    if k > 0 {
      assert blocks[0].name != blocks[k].name;
      FindByNameDistinct(blocks[1..], k - 1);
    }
  }

  /** Every value the block list offers is read back as the selection it
      stands for: the first as the commonly used characters, the others as
      their block's range. */
  lemma OfferedValuesSelect(blocks: seq<Block>, values: seq<string>)
    requires Names(blocks)
    requires values == [CommonName] + SortBy(ShownDisplays(blocks), StrLt)
    ensures |values| >= 1 && Selected(blocks, values[0]) == Some(Common)
    ensures forall v :: v in values[1..] ==> SelectsShownBlock(blocks, v)
  {
    CommonNameStrips();
    var sorted := SortBy(ShownDisplays(blocks), StrLt);
    assert values[1..] == sorted;
    forall v | v in sorted
      ensures SelectsShownBlock(blocks, v)
    {
      assert v in multiset(sorted);
      ShownValueSelects(blocks, v);
    }
  }

  /** v is read back as the range of a block the list shows. */
  predicate SelectsShownBlock(blocks: seq<Block>, v: string) {
    exists k :: 0 <= k < |blocks| && blocks[k].show && Selected(blocks, v) == Some(Range(blocks[k].first, blocks[k].last))
  }

  lemma ShownValueSelects(blocks: seq<Block>, v: string)
    requires Names(blocks) && v in ShownDisplays(blocks)
    ensures SelectsShownBlock(blocks, v)
  {
    var k :| 0 <= k < |blocks| && blocks[k].show && Display(blocks[k]) == v;
    StripDisplay(blocks[k]);
    FindByNameDistinct(blocks, k);
  }

  /** The block list's first entry is the commonly used characters and every
      shown block appears in it. */
  lemma BlockListHoldsShown(blocks: seq<Block>, k: nat)
    requires k < |blocks| && blocks[k].show
    ensures Display(blocks[k]) in SortBy(ShownDisplays(blocks), StrLt)
  {
    assert Display(blocks[k]) in multiset(ShownDisplays(blocks));
  }

  // ---------------------------------------------------------------------
  // Button grid

  /** A character button and the grid cell it is placed in. */
  datatype Button<T> = Button(text: T, column: nat, row: nat)

  /** The placement loop of `block_selected`: the count-th button goes in
      column count % 16 of row count / 16. */
  method PlaceButtons<T>(labels: seq<T>) returns (buttons: seq<Button<T>>)
    ensures |buttons| == |labels|
    ensures forall i :: 0 <= i < |labels| ==> buttons[i].text == labels[i]
    ensures forall i :: 0 <= i < |labels| ==> buttons[i].column < 16 && buttons[i].row * 16 + buttons[i].column == i
  {
    buttons := [];
    var count := 0;
    while count < |labels|
      invariant 0 <= count <= |labels| && |buttons| == count
      invariant forall i :: 0 <= i < count ==> buttons[i].text == labels[i]
      invariant forall i :: 0 <= i < count ==> buttons[i].column < 16 && buttons[i].row * 16 + buttons[i].column == i
    {
      buttons := buttons + [Button(labels[count], count % 16, count / 16)];
      count := count + 1;
    }
  }

  /** No two buttons share a cell, and the buttons fill the grid row by row. */
  lemma ButtonsDistinct<T>(buttons: seq<Button<T>>, i: nat, j: nat)
    requires forall k :: 0 <= k < |buttons| ==> buttons[k].column < 16 && buttons[k].row * 16 + buttons[k].column == k
    requires i < j < |buttons|
    ensures (buttons[i].column, buttons[i].row) != (buttons[j].column, buttons[j].row)
    ensures buttons[i].row <= buttons[j].row
  {
    assert buttons[i].row * 16 < buttons[j].row * 16 + 16;
  }
}
