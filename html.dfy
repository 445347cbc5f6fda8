/** The HTML Images dialog: finding `[Illustration ...]` markup, turning its
    caption into paragraphs, choosing the next image file, and replacing the
    markup by a `<figure>` element.

    The file being edited is a string and positions in it are offsets; the
    directory listing, the "is this a file" test and the diacritic remover are
    parameters. */
module Html {
  import opened Wrappers
  import opened Text
  import opened Ordering

  /** `RETURN_ARROW`, which stands for a newline inside the one-line caption entry. */
  const Arrow: char := '⏎'

  // ---------------------------------------------------------------------
  // Caption normalisation

  /** `re.sub(r"^\[Illustration:? ?", "", c)` */
  function StripIlloPrefix(c: string): string {
    if StartsWith(c, "[Illustration") then
      var a := c[13..];
      var b := if |a| > 0 && a[0] == ':' then a[1..] else a;
      if |b| > 0 && b[0] == ' ' then b[1..] else b
    else c
  }

  /** `re.sub(r"\]$", "", c)`: `$` matches at the end and before a final newline. */
  function StripCloseBracket(c: string): string {
    if EndsWith(c, "]") then c[..|c| - 1]
    else if EndsWith(c, "]\n") then c[..|c| - 2] + "\n"
    else c
  }

  /** `re.sub("^(?!<p)", "<p>", c)` */
  function OpenParagraph(c: string): string {
    if StartsWith(c, "<p") then c else "<p>" + c
  }

  /** `re.sub("(?<!</p>)$", "</p>", c)`. With a final newline `$` matches twice,
      before the newline and at the very end, and the end is never preceded by
      `</p>`. */
  function CloseParagraph(c: string): string {
    if |c| > 0 && c[|c| - 1] == '\n' then
      var b := c[..|c| - 1];
      (if EndsWith(b, "</p>") then b else b + "</p>") + "\n" + "</p>"
    else if EndsWith(c, "</p>") then c
    else c + "</p>"
  }

  /** Blank lines become paragraph breaks, then every other newline an arrow. */
  function Paragraphs(c: string): string {
    ReplaceAll(ReplaceAll(c, "\n\n", "</p>\n<p>"), "\n", [Arrow])
  }

  /** The caption chain of `find_illo_markup`, as the code writes it. The
      prefix strip is anchored at `[`, so markup found with its leading `<p>`
      keeps its `[Illustration:` and its `]`. */
  function NormaliseAsWritten(raw: string): string {
    Paragraphs(CloseParagraph(OpenParagraph(StripCloseBracket(StripIlloPrefix(raw)))))
  }

  /** The `<p>` and `</p>` the finder takes in around the bracketed markup. */
  function Unwrap(raw: string): string {
    var a := if StartsWith(raw, "<p>[Illustration") then raw[3..] else raw;
    if EndsWith(a, "]</p>") then a[..|a| - 4] else a
  }

  /** The caption chain applied to the bracketed markup alone, so that a
      wrapped and an unwrapped illustration give the same caption. */
  function Normalise(raw: string): string {
    NormaliseAsWritten(Unwrap(raw))
  }

  // ---------------------------------------------------------------------
  // Finding the markup

  /** A span of the file: the offsets of its first and one-past-last character. */
  datatype Span = Span(start: nat, end: nat)

  /** `(<p>)?\[Illustration` matches at offset i. */
  predicate MarkerAt(text: string, i: nat)
    requires i <= |text|
  {
    StartsWith(text[i..], "<p>[Illustration") || StartsWith(text[i..], "[Illustration")
  }

  /** The leftmost offset from i on where the marker matches. */
  function FirstMarker(text: string, i: nat): (r: Option<nat>)
    requires i <= |text|
    ensures r.Some? ==> i <= r.value <= |text| && MarkerAt(text, r.value)
    ensures forall k :: i <= k <= |text| && (r.None? || k < r.value) ==> !MarkerAt(text, k)
    decreases |text| - i
  {
    if MarkerAt(text, i) then Some(i)
    else if i == |text| then None
    else FirstMarker(text, i + 1)
  }

  /** The first `]` from offset i on. */
  function FirstClose(text: string, i: nat): (r: Option<nat>)
    requires i <= |text|
    ensures r.Some? ==> i <= r.value < |text| && text[r.value] == ']'
    ensures forall k :: i <= k < |text| && (r.None? || k < r.value) ==> text[k] != ']'
    decreases |text| - i
  {
    if i == |text| then None
    else if text[i] == ']' then Some(i)
    else FirstClose(text, i + 1)
  }

  /** The markup `find_illo_markup` selects: from the first marker to the first
      `]` after it, together with a `</p>` that directly follows. */
  function FindIllo(text: string): (r: Option<Span>)
    ensures r.Some? ==> r.value.start < r.value.end <= |text|
  {
    match FirstMarker(text, 0)
    case None => None
    case Some(s) =>
      match FirstClose(text, s)
      case None => None
      case Some(j) => Some(Span(s, if StartsWith(text[j + 1..], "</p>") then j + 5 else j + 1))
  }

  // ---------------------------------------------------------------------
  // The HTML

  /** The caption as `convert_to_html` lays it out: indented, arrows back to
      indented lines, inside a figcaption when there is any. */
  function CaptionBlock(caption: string): string {
    var lines := CaptionLines(caption);
    if lines == [] then [] else "  <figcaption class=\"caption\">\n" + lines + "\n  </figcaption>"
  }

  /** A leading `<p` is indented by four spaces. */
  function Indent(caption: string): string {
    if StartsWith(caption, "<p") then "    " + caption else caption
  }

  /** Each arrow becomes a newline and a four-space indent. */
  function CaptionLines(caption: string): string {
    ReplaceAll(Indent(caption), [Arrow], "\n    ")
  }

  /** `alt.replace('"', "&quot;")` */
  function EscapeQuotes(alt: string): string {
    ReplaceAll(alt, "\"", "&quot;")
  }

  /** The alt attribute, left out for an empty alt text. */
  function AltAttr(alt: string): string {
    var escaped := EscapeQuotes(alt);
    if escaped == [] then [] else " alt=\"" + escaped + "\""
  }

  /** The id tried with a given suffix: the base itself first, then base_2, base_3, … */
  function Candidate(base: string, suffix: nat): string {
    if suffix <= 1 then base else base + "_" + Decimal(suffix)
  }

  function IdAttr(id: string): string {
    "id=\"" + id + "\""
  }

  /** Numbers whose decimal form fits in k characters are below 10^k. */
  lemma DecimalBound(n: nat, k: nat)
    ensures |Decimal(n)| <= k ==> n < Pow10(k)
  {
    if n >= Pow10(k) {
      DecimalLength(n, k);
    }
  }

  /** A candidate the file contains is short enough to fit in it, which bounds
      the suffixes that can be tried. */
  lemma CandidateBound(text: string, base: string, suffix: nat)
    requires suffix >= 1 && Contains(text, IdAttr(Candidate(base, suffix)))
    ensures suffix < Pow10(|text|)
  {
    ContainsLength(text, IdAttr(Candidate(base, suffix)));
    DecimalBound(suffix, |text|);
    if suffix > 1 {
      assert |Decimal(suffix)| < |IdAttr(Candidate(base, suffix))|;
    } else {
      assert Pow10(|text|) >= 10 by {
        assert |text| >= 1;
      }
    }
  }

  /** The first candidate from the given suffix on whose id attribute the file
      does not hold. */
  function FreeId(text: string, base: string, suffix: nat): (id: string)
    requires 1 <= suffix <= Pow10(|text|)
    ensures exists k :: (suffix <= k <= Pow10(|text|) && id == Candidate(base, k)
                          && !Contains(text, IdAttr(id))
                          && forall j :: suffix <= j < k ==> Contains(text, IdAttr(Candidate(base, j))))
    decreases Pow10(|text|) - suffix
  {
    if !Contains(text, IdAttr(Candidate(base, suffix))) then Candidate(base, suffix)
    else
      CandidateBound(text, base, suffix);
      FreeId(text, base, suffix + 1)
  }

  /** The id loop of `convert_to_html`: `id_suffix` counts up until the file
      has no element with that id. */
  method UniqueId(text: string, base: string) returns (id: string)
    ensures id == FreeId(text, base, 1)
    ensures !Contains(text, IdAttr(id))
  {
    var suffix := 1;
    id := base;
    while Contains(text, IdAttr(id))
      invariant 1 <= suffix <= Pow10(|text|)
      invariant id == Candidate(base, suffix)
      invariant FreeId(text, base, suffix) == FreeId(text, base, 1)
      decreases Pow10(|text|) - suffix
    {
      CandidateBound(text, base, suffix);
      suffix := suffix + 1;
      id := base + "_" + Decimal(suffix);
    }
  }

  /** The element that replaces the markup. */
  function FigureHtml(id: string, filename: string, alt: string, caption: string): string {
    "<figure class=\"figcenter\" id=\"" + id + "\">\n"
      + "  <img src=\"" + filename + "\"" + AltAttr(alt) + ">\n"
      + CaptionBlock(caption) + "\n</figure>\n"
  }

  // ---------------------------------------------------------------------
  // File names and the listing

  /** Offset of the last c in s. */
  function LastIndexOf(s: string, c: char): (r: Option<nat>)
    ensures r.Some? ==> r.value < |s| && s[r.value] == c && c !in s[r.value + 1..]
    ensures r.None? ==> c !in s
    decreases |s|
  {
    if s == [] then None
    else if s[|s| - 1] == c then Some(|s| - 1)
    else
      var r := LastIndexOf(s[..|s| - 1], c);
      assert s == s[..|s| - 1] + [s[|s| - 1]];
      r
  }

  /** `os.path.basename` on a relative path with `/` separators. */
  function Basename(path: string): string {
    match LastIndexOf(path, '/')
    case None => path
    case Some(k) => path[k + 1..]
  }

  /** The directory part of the path, with its final `/`. */
  function DirPart(path: string): string {
    match LastIndexOf(path, '/')
    case None => []
    case Some(k) => path[..k + 1]
  }

  predicate AllDots(s: string) {
    forall i :: 0 <= i < |s| ==> s[i] == '.'
  }

  /** `os.path.splitext(name)[1]`: from the last dot on, unless only dots come
      before it. */
  function Extension(name: string): string {
    match LastIndexOf(name, '.')
    case None => []
    case Some(k) => if AllDots(name[..k]) then [] else name[k..]
  }

  /** `os.path.splitext(name)[0]` */
  function Stem(name: string): string {
    var e := Extension(name);
    if |e| <= |name| then name[..|name| - |e|] else name
  }

  predicate IsImage(name: string) {
    Extension(name) in {".jpg", ".gif", ".png"}
  }

  /** The order of `sorted(..., reverse=True)`. */
  predicate StrGt(a: string, b: string) {
    StrLt(b, a)
  }

  /** `sorted(listing, reverse=reverse)` */
  function Order(listing: seq<string>, reverse: bool): seq<string> {
    if reverse then SortBy(listing, StrGt) else SortBy(listing, StrLt)
  }

  /** What the scan of `next_file` finds: the first image after the first
      image named `current`. */
  function ScanFrom(order: seq<string>, current: string, found: bool): Option<string>
    decreases |order|
  {
    if order == [] then None
    else if !IsImage(order[0]) then ScanFrom(order[1..], current, found)
    else if found then Some(order[0])
    else ScanFrom(order[1..], current, order[0] == current)
  }

  /** The scanning loop of `next_file`, with its `found` flag. */
  method ScanListing(order: seq<string>, current: string) returns (next: Option<string>)
    ensures next == ScanFrom(order, current, false)
  {
    var found := false;
    var i := 0;
    next := None;
    while i < |order|
      invariant 0 <= i <= |order|
      invariant ScanFrom(order[i..], current, found) == ScanFrom(order, current, false)
    {
      var fn := order[i];
      assert order[i..][1..] == order[i + 1..];
      if !IsImage(fn) {
        i := i + 1;
        continue;
      }
      if found {
        next := Some(fn);
        return;
      }
      if fn == current {
        found := true;
      }
      i := i + 1;
    }
  }

  /** The file name shown after `next_file`: the next image of the listing,
      in the same directory, when there is one and it is a file. With no
      current file the file chooser opens (not part of this model), and an
      invalid directory changes nothing. */
  function NextFileName(current: string, listing: seq<string>, reverse: bool, dirValid: bool, isFile: string -> bool): string {
    if current == [] || !dirValid then current
    else
      match ScanFrom(Order(listing, reverse), Basename(current), false)
      case None => current
      case Some(fn) => if isFile(DirPart(current) + fn) then DirPart(current) + fn else current
  }

  /** The dialog's two file buttons. */
  datatype FileButton = PrevButton | NextButton

  /** What a button runs, as wired: Prev calls `next_file(reverse=True)`, but
      Next's lambda only names the bound method and calls nothing. */
  function ButtonReverseAsWritten(b: FileButton): Option<bool> {
    match b
    case PrevButton => Some(true)
    case NextButton => None
  }

  /** What a button is meant to run: Next calls `next_file()`. */
  function ButtonReverse(b: FileButton): Option<bool> {
    match b
    case PrevButton => Some(true)
    case NextButton => Some(false)
  }

  /** The file name after pressing a button wired as intended. */
  function AfterPress(b: FileButton, current: string, listing: seq<string>, dirValid: bool, isFile: string -> bool): string {
    match ButtonReverse(b)
    case None => current
    case Some(reverse) => NextFileName(current, listing, reverse, dirValid, isFile)
  }

  /** The file name after pressing a button wired as in the code. */
  function AfterPressAsWritten(b: FileButton, current: string, listing: seq<string>, dirValid: bool, isFile: string -> bool): string {
    match ButtonReverseAsWritten(b)
    case None => current
    case Some(reverse) => NextFileName(current, listing, reverse, dirValid, isFile)
  }

  // ---------------------------------------------------------------------
  // The dialog

  class HtmlImageDialog {
    /** The file being edited. */
    var text: string
    /** The image file name entry. */
    var filename: string
    /** The caption and alt text entries. */
    var caption: string
    var alt: string
    /** The markup found and not yet converted. */
    var illoRange: Option<Span>

    predicate Valid()
      reads this
    {
      illoRange.Some? ==> illoRange.value.start <= illoRange.value.end <= |text|
    }

    /** Opening the dialog looks for the first markup straight away. */
    constructor (fileText: string, listing: seq<string>, dirValid: bool, isFile: string -> bool)
      ensures Valid() && text == fileText && illoRange == FindIllo(fileText)
      ensures illoRange.Some? ==> caption == Normalise(fileText[illoRange.value.start..illoRange.value.end]) && alt == []
      ensures filename == [] && (illoRange.None? ==> caption == [] && alt == [])
    {
      text := fileText;
      filename := [];
      caption := [];
      alt := [];
      illoRange := None;
      new;
      FindIlloMarkup(listing, dirValid, isFile);
    }

    /** `next_file`: loads the next (or, reversed, the previous) image. */
    method NextFile(reverse: bool, listing: seq<string>, dirValid: bool, isFile: string -> bool)
      modifies this
      ensures filename == NextFileName(old(filename), listing, reverse, dirValid, isFile)
      ensures text == old(text) && caption == old(caption) && alt == old(alt) && illoRange == old(illoRange)
    {
      if filename == [] || !dirValid {
        return;
      }
      var next := ScanListing(Order(listing, reverse), Basename(filename));
      if next.Some? && isFile(DirPart(filename) + next.value) {
        filename := DirPart(filename) + next.value;
      }
    }

    /** A file button as it is meant to work. */
    method Press(b: FileButton, listing: seq<string>, dirValid: bool, isFile: string -> bool)
      modifies this
      ensures filename == AfterPress(b, old(filename), listing, dirValid, isFile)
      ensures text == old(text) && caption == old(caption) && alt == old(alt) && illoRange == old(illoRange)
    {
      NextFile(ButtonReverse(b).value, listing, dirValid, isFile);
    }

    /** `find_illo_markup`: selects the first markup, shows its caption,
        clears the alt text and moves on to the next image file. */
    method FindIlloMarkup(listing: seq<string>, dirValid: bool, isFile: string -> bool)
      modifies this
      ensures Valid() && text == old(text) && illoRange == FindIllo(old(text))
      ensures illoRange.None? ==> caption == old(caption) && alt == old(alt) && filename == old(filename)
      ensures illoRange.Some? ==>
        && caption == Normalise(text[illoRange.value.start..illoRange.value.end])
        && alt == []
        && filename == NextFileName(old(filename), listing, false, dirValid, isFile)
    {
      illoRange := None;
      var found := FindIllo(text);
      if found.None? {
        return;
      }
      illoRange := found;
      caption := Normalise(text[found.value.start..found.value.end]);
      alt := [];
      NextFile(false, listing, dirValid, isFile);
    }

    /** `convert_to_html`: replaces the selected markup by the figure element
        and forgets the selection. Without a selection or a file name nothing
        happens. */
    method ConvertToHtml(removeDiacritics: string -> string)
      requires Valid()
      modifies this
      ensures Valid()
      ensures filename == old(filename) && caption == old(caption) && alt == old(alt)
      ensures old(illoRange).None? || old(filename) == [] ==> text == old(text) && illoRange == old(illoRange)
      ensures old(illoRange).Some? && old(filename) != [] ==>
        && illoRange == None
        && var span := old(illoRange).value;
           var id := FreeId(old(text), removeDiacritics(Stem(Basename(filename))), 1);
           text == old(text)[..span.start] + FigureHtml(id, filename, alt, caption) + old(text)[span.end..]
    {
      if illoRange.None? || filename == [] {
        return;
      }
      var span := illoRange.value;
      var id := UniqueId(text, removeDiacritics(Stem(Basename(filename))));
      PlaceFigure(span, id);
    }

    /** Puts the figure element for id in place of the span and forgets the
        selection. */
    method PlaceFigure(span: Span, id: string)
      requires span.start <= span.end <= |text|
      modifies this
      ensures Valid()
      ensures filename == old(filename) && caption == old(caption) && alt == old(alt)
      ensures illoRange == None
      ensures text == old(text)[..span.start] + FigureHtml(id, filename, alt, caption) + old(text)[span.end..]
    {
      text := text[..span.start] + FigureHtml(id, filename, alt, caption) + text[span.end..];
      illoRange := None;
    }
  }
}
