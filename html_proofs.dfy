/** What the HTML Images dialog's caption chain, markup finder, figure
    assembly and file scan guarantee. */
module HtmlProofs {
  import opened Wrappers
  import opened Text
  import opened Ordering
  import opened Html

  // ---------------------------------------------------------------------
  // Caption shape

  /** The paragraph step keeps a leading `<p` and a trailing `</p>`, and
      leaves no newline behind. */
  lemma ParagraphsShape(c: string)
    ensures '\n' !in Paragraphs(c)
    ensures StartsWith(c, "<p") ==> StartsWith(Paragraphs(c), "<p")
    ensures EndsWith(c, "</p>") ==> EndsWith(Paragraphs(c), "</p>")
  {
    var once := ReplaceAll(c, "\n\n", "</p>\n<p>");
    assert '\n' !in Paragraphs(c) by {
      ReplaceCharRemoves(once, '\n', [Arrow]);
      assert "\n" == ['\n'];
    }
    if StartsWith(c, "<p") {
      ReplaceKeepsStart(c, "<p", "\n\n", "</p>\n<p>");
      ReplaceKeepsStart(once, "<p", "\n", [Arrow]);
    }
    if EndsWith(c, "</p>") {
      ReplaceKeepsEnd(c, "</p>", "\n\n", "</p>\n<p>");
      ReplaceKeepsEnd(once, "</p>", "\n", [Arrow]);
    }
  }

  lemma CloseParagraphShape(c: string)
    ensures EndsWith(CloseParagraph(c), "</p>")
    ensures StartsWith(c, "<p") ==> StartsWith(CloseParagraph(c), "<p")
  {
    if StartsWith(c, "<p") && |c| > 0 && c[|c| - 1] == '\n' {
      var b := c[..|c| - 1];
      assert |b| >= 2 && b[..2] == c[..2];
    }
  }

  /** Every normalised caption opens with `<p`, closes with `</p>` and is a
      single line. */
  lemma NormaliseShape(raw: string)
    ensures StartsWith(Normalise(raw), "<p")
    ensures EndsWith(Normalise(raw), "</p>")
    ensures '\n' !in Normalise(raw)
  {
    NormaliseAsWrittenShape(Unwrap(raw));
  }

  /** The caption chain as written has the same shape: whatever the markup, it
      ends up as paragraphs on one line. */
  lemma NormaliseAsWrittenShape(raw: string)
    ensures StartsWith(NormaliseAsWritten(raw), "<p")
    ensures EndsWith(NormaliseAsWritten(raw), "</p>")
    ensures '\n' !in NormaliseAsWritten(raw)
  {
    var o := OpenParagraph(StripCloseBracket(StripIlloPrefix(raw)));
    CloseParagraphShape(o);
    ParagraphsShape(CloseParagraph(o));
  }

  /** Simple markup gives one paragraph of the caption's text. */
  lemma NormaliseOneParagraph(body: string)
    requires '\n' !in body && !StartsWith(body, "<p") && !EndsWith(body, "</p>")
    ensures Normalise("[Illustration: " + body + "]") == "<p>" + body + "</p>"
  {
    UnwrapBare(body);
    StripBare(body);
    var o := "<p>" + body;
    assert OpenParagraph(body) == o;
    CloseOneLine(body);
    var t := o + "</p>";
    assert '\n' !in t by {
      assert '\n' !in "<p>" && '\n' !in "</p>";
      assert t == "<p>" + body + "</p>";
    }
    NoNewlineParagraphs(t);
  }

  lemma CloseOneLine(body: string)
    requires '\n' !in body && !EndsWith(body, "</p>")
    ensures CloseParagraph("<p>" + body) == "<p>" + body + "</p>"
  {
    var o := "<p>" + body;
    assert o[|o| - 1] != '\n' by {
      if |body| > 0 {
        assert o[|o| - 1] == body[|body| - 1];
      }
    }
    assert !EndsWith(o, "</p>") by {
      if |body| >= 4 {
        assert o[|o| - 4..] == body[|body| - 4..];
      } else if |body| == 1 {
        assert o[1] == 'p';
      } else if |body| == 2 {
        assert o[1] == 'p';
      } else if |body| == 3 {
        assert o[2] == '>';
      }
    }
  }

  lemma UnwrapBare(body: string)
    ensures Unwrap("[Illustration: " + body + "]") == "[Illustration: " + body + "]"
  {
    var raw := "[Illustration: " + body + "]";
    assert raw[0] == '[' && raw[|raw| - 1] == ']';
    assert !StartsWith(raw, "<p>[Illustration");
    assert !EndsWith(raw, "]</p>");
  }

  lemma StripBare(body: string)
    ensures StripCloseBracket(StripIlloPrefix("[Illustration: " + body + "]")) == body
  {
    var raw := "[Illustration: " + body + "]";
    assert raw[..13] == "[Illustration";
    var a := raw[13..];
    assert a == ": " + body + "]";
    assert a[1..] == " " + body + "]";
    assert a[1..][1..] == body + "]";
    assert StripIlloPrefix(raw) == body + "]";
    assert (body + "]")[..|body|] == body;
  }

  lemma NoNewlineParagraphs(t: string)
    requires '\n' !in t
    ensures Paragraphs(t) == t
  {
    NoPatternCharUnchanged(t, "\n\n", "</p>\n<p>");
    NoPatternCharUnchanged(t, "\n", [Arrow]);
  }

  /** A blank line becomes a paragraph break, shown with an arrow. */
  lemma BlankLineBreaksParagraph(a: string, b: string)
    requires '\n' !in a && '\n' !in b
    ensures Paragraphs(a + "\n\n" + b) == a + "</p>" + [Arrow] + "<p>" + b
  {
    ReplaceSingle(a, b, "\n\n", "</p>\n<p>");
    var x, y, z := "</p>", "\n", "<p>";
    assert "</p>\n<p>" == x + y + z;
    Regroup(a, x, y, z, b);
    assert '\n' !in a + x && '\n' !in z + b;
    ReplaceSingle(a + x, z + b, y, [Arrow]);
    Regroup(a, x, [Arrow], z, b);
  }

  lemma Regroup(a: string, x: string, y: string, z: string, b: string)
    ensures a + (x + y + z) + b == a + x + y + (z + b)
  {
  }

  /** A single newline stays inside the paragraph, shown as an arrow. */
  lemma SingleNewlineBecomesArrow(a: string, b: string)
    requires '\n' !in a && '\n' !in b
    ensures Paragraphs(a + "\n" + b) == a + [Arrow] + b
  {
    var nb := "\n" + b;
    assert !StartsWith(nb, "\n\n") by {
      if |b| > 0 {
        assert b[0] in b;
      }
    }
    ReplaceKeepsPrefix(a, nb, "\n\n", "</p>\n<p>");
    assert nb[1..] == b;
    NoPatternCharUnchanged(b, "\n\n", "</p>\n<p>");
    assert ReplaceAll(a + nb, "\n\n", "</p>\n<p>") == a + nb;
    ReplaceKeepsPrefix(a, nb, "\n", [Arrow]);
    NoPatternCharUnchanged(b, "\n", [Arrow]);
    assert a + nb == a + "\n" + b;
  }

  // ---------------------------------------------------------------------
  // The wrapped-markup discrepancy

  /** As written, markup found with its `<p>` wrapper keeps its
      `[Illustration:` prefix and its closing bracket. */
  lemma WrappedMarkupKeptAsWritten(body: string)
    requires '\n' !in body
    ensures NormaliseAsWritten("<p>[Illustration: " + body + "]</p>") == "<p>[Illustration: " + body + "]</p>"
  {
    var raw := "<p>[Illustration: " + body + "]</p>";
    assert !StartsWith(raw, "[Illustration") by {
      assert raw[0] == '<';
    }
    assert !EndsWith(raw, "]") && !EndsWith(raw, "]\n") by {
      assert raw[|raw| - 1] == '>';
    }
    assert StartsWith(raw, "<p");
    assert EndsWith(raw, "</p>") by {
      assert raw[|raw| - 4..] == "</p>";
    }
    assert |raw| > 0 && raw[|raw| - 1] != '\n';
    assert '\n' !in raw;
    NoNewlineParagraphs(raw);
  }

  /** The caption of wrapped markup is the caption of the markup inside. */
  lemma WrappedMarkupUnwrapped(body: string)
    ensures Normalise("<p>[Illustration: " + body + "]</p>") == Normalise("[Illustration: " + body + "]")
  {
    var inner := "[Illustration: " + body + "]";
    assert "<p>[Illustration: " + body + "]</p>" == "<p>" + inner + "</p>";
    assert inner[..13] == "[Illustration";
    UnwrapWrapped(inner);
    UnwrapBare(body);
  }

  /** Bracketed markup inside a paragraph unwraps to the bracketed markup. */
  lemma UnwrapWrapped(inner: string)
    requires StartsWith(inner, "[Illustration") && EndsWith(inner, "]")
    ensures Unwrap("<p>" + inner + "</p>") == inner
  {
    var raw := "<p>" + inner + "</p>";
    assert StartsWith(raw, "<p>[Illustration") by {
      assert raw[..16] == "<p>" + inner[..13];
    }
    var a := raw[3..];
    assert a == inner + "</p>";
    assert EndsWith(a, "]</p>") by {
      assert a[|a| - 5..] == [inner[|inner| - 1]] + "</p>";
    }
    assert a[..|a| - 4] == inner;
  }

  // ---------------------------------------------------------------------
  // Finding the markup

  /** The span found starts at the leftmost marker and ends just after the
      first `]` after it, with a `</p>` that directly follows that bracket. */
  lemma FindIlloSpan(text: string)
    requires FindIllo(text).Some?
    ensures var sp := FindIllo(text).value;
      && MarkerAt(text, sp.start)
      && (forall k :: 0 <= k < sp.start ==> !MarkerAt(text, k))
      && exists j :: sp.start <= j < sp.end && text[j] == ']'
                     && (forall k :: sp.start <= k < j ==> text[k] != ']')
                     && (sp.end == j + 1 || (sp.end == j + 5 && text[j + 1..sp.end] == "</p>"))
  {
    var s := FirstMarker(text, 0).value;
    var j := FirstClose(text, s).value;
    var sp := FindIllo(text).value;
    if StartsWith(text[j + 1..], "</p>") {
      assert text[j + 1..][..4] == text[j + 1..j + 5];
    }
    assert sp.start <= j < sp.end && text[j] == ']';
  }

  /** Without a marker, or without a `]` after the first one, nothing is found. */
  lemma FindIlloNone(text: string)
    ensures FindIllo(text).None? <==>
      (FirstMarker(text, 0).None? || forall k :: FirstMarker(text, 0).value <= k < |text| ==> text[k] != ']')
  {
    if FirstMarker(text, 0).Some? {
      var s := FirstMarker(text, 0).value;
      if FirstClose(text, s).Some? {
        var j := FirstClose(text, s).value;
        assert text[j] == ']';
      }
    }
  }

  // ---------------------------------------------------------------------
  // The figure

  /** Replacing the single character c by r and then r by c gives back the
      text, when r starts with a character the text does not hold. */
  lemma {:induction false} ReplaceCharInverse(s: string, c: char, r: string)
    requires |r| > 0 && r[0] !in s
    ensures ReplaceAll(ReplaceAll(s, [c], r), r, [c]) == s
    decreases |s|
  {
    if s != [] {
      assert r[0] !in s[1..] by {
        forall i | 0 <= i < |s| - 1 ensures s[1..][i] != r[0] { assert s[1..][i] == s[i + 1]; }
      }
      ReplaceCharInverse(s[1..], c, r);
      var x := ReplaceAll(s[1..], [c], r);
      if s[0] == c {
        assert StartsWith(s, [c]) && s[|[c]|..] == s[1..];
        assert ReplaceAll(s, [c], r) == r + x;
        assert StartsWith(r + x, r) && (r + x)[|r|..] == x;
      } else {
        assert !StartsWith(s, [c]);
        assert ReplaceAll(s, [c], r) == [s[0]] + x;
        assert s[0] != r[0];
        assert !StartsWith([s[0]] + x, r);
        assert ([s[0]] + x)[1..] == x;
        assert [s[0]] + s[1..] == s;
      }
    }
  }

  /** The alt attribute holds no raw double quote; it is empty exactly when
      the alt text is; and when the text holds no `&` the escaping can be
      undone. */
  lemma AltEscaping(alt: string)
    ensures '"' !in EscapeQuotes(alt)
    ensures AltAttr(alt) == [] <==> alt == []
    ensures '&' !in alt ==> ReplaceAll(EscapeQuotes(alt), "&quot;", "\"") == alt
  {
    assert "\"" == ['"'];
    ReplaceCharRemoves(alt, '"', "&quot;");
    if '&' !in alt {
      ReplaceCharInverse(alt, '"', "&quot;");
    }
    if alt != [] {
      assert EscapeQuotes(alt) != [];
    }
  }

  /** The caption block is empty exactly when the caption is, holds no arrow,
      and, for a one-line caption, turning each indented line break back into
      an arrow gives back the (indented) caption. */
  lemma CaptionBlockShape(caption: string)
    ensures CaptionBlock(caption) == [] <==> caption == []
    ensures Arrow !in CaptionBlock(caption)
    ensures '\n' !in caption ==> ReplaceAll(CaptionLines(caption), "\n    ", [Arrow]) == Indent(caption)
  {
    ReplaceCharRemoves(Indent(caption), Arrow, "\n    ");
    if caption != [] {
      assert CaptionLines(caption) != [];
    }
    var lines := CaptionLines(caption);
    if lines != [] {
      var block := "  <figcaption class=\"caption\">\n" + lines + "\n  </figcaption>";
      var head := "  <figcaption class=\"caption\">\n";
      var tail := "\n  </figcaption>";
      assert Arrow !in head && Arrow !in tail;
      assert block == head + lines + tail;
      forall i | 0 <= i < |block| ensures block[i] != Arrow {
        if i < |head| {
          assert block[i] == head[i];
        } else if i < |head| + |lines| {
          assert block[i] == lines[i - |head|];
        } else {
          assert block[i] == tail[i - |head| - |lines|];
        }
      }
    }
    if '\n' !in caption {
      assert '\n' !in Indent(caption) by {
        if StartsWith(caption, "<p") {
          assert Indent(caption) == "    " + caption;
        }
      }
      ReplaceCharInverse(Indent(caption), Arrow, "\n    ");
    }
  }

  /** The figure for a caption that opens a paragraph, as every normalised
      caption does, puts the indented paragraph straight after the opening
      figcaption line. */
  lemma FigureOfParagraphCaption(c: string)
    requires StartsWith(c, "<p")
    ensures StartsWith(CaptionBlock(c), "  <figcaption class=\"caption\">\n    <p")
  {
    var lines := CaptionLines(c);
    CaptionLinesIndented(c);
    var head := "  <figcaption class=\"caption\">\n";
    assert CaptionBlock(c) == head + lines + "\n  </figcaption>";
    PrefixOfConcat(head, "    <p", lines, "\n  </figcaption>");
  }

  lemma CaptionLinesIndented(c: string)
    requires StartsWith(c, "<p")
    ensures StartsWith(CaptionLines(c), "    <p")
  {
    var pre := "    <p";
    assert Indent(c) == pre + c[2..] by {
      assert c == "<p" + c[2..];
    }
    assert forall i :: 0 <= i < |pre| ==> pre[i] != Arrow;
    ReplaceKeepsPrefix(pre, c[2..], [Arrow], "\n    ");
  }

  lemma PrefixOfConcat(head: string, pre: string, lines: string, tail: string)
    requires StartsWith(lines, pre)
    ensures StartsWith(head + lines + tail, head + pre)
  {
    assert (head + lines + tail)[..|head| + |pre|] == head + lines[..|pre|];
  }

  // ---------------------------------------------------------------------
  // The file scan

  /** The images of a listing, in order. */
  function Images(order: seq<string>): seq<string> {
    if order == [] then []
    else if IsImage(order[0]) then [order[0]] + Images(order[1..])
    else Images(order[1..])
  }

  /** The element after the first occurrence of current. */
  function After(s: seq<string>, current: string): Option<string> {
    if |s| < 2 then None
    else if s[0] == current then Some(s[1])
    else After(s[1..], current)
  }

  /** The scan finds the image that follows the current name among the
      images of the listing; non-images neither count as the current file nor
      get loaded. */
  lemma {:induction false} ScanIsAfter(order: seq<string>, current: string)
    ensures ScanFrom(order, current, false) == After(Images(order), current)
    ensures ScanFrom(order, current, true) == (if Images(order) == [] then None else Some(Images(order)[0]))
    decreases |order|
  {
    if order != [] {
      ScanIsAfter(order[1..], current);
      var rest := Images(order[1..]);
      if IsImage(order[0]) {
        assert Images(order) == [order[0]] + rest;
        if order[0] != current && |rest| >= 1 {
          assert ([order[0]] + rest)[1..] == rest;
        }
      }
    }
  }

  /** Each name occurs at most once, as in a directory listing. */
  ghost predicate NoRepeats(listing: seq<string>) {
    forall x :: multiset(listing)[x] <= 1
  }

  /** lt orders s strictly. */
  ghost predicate Increasing(s: seq<string>, lt: (string, string) -> bool) {
    forall i, j :: 0 <= i < j < |s| ==> lt(s[i], s[j])
  }

  lemma RepeatCounts(s: seq<string>, i: nat, j: nat)
    requires i < j < |s| && s[i] == s[j]
    ensures multiset(s)[s[i]] >= 2
  {
    assert s == s[..j] + [s[j]] + s[j + 1..];
    assert s[..j][i] == s[i];
    assert multiset(s[..j])[s[i]] >= 1;
  }

  /** A sorted listing without repeats is strictly ordered, both ways round. */
  lemma OrderIncreasing(listing: seq<string>, reverse: bool)
    requires NoRepeats(listing)
    ensures reverse ==> Increasing(Order(listing, reverse), StrGt)
    ensures !reverse ==> Increasing(Order(listing, reverse), StrLt)
  {
    StrLtIsStrictOrder();
    assert IsStrictOrder(StrGt) by {
      assert forall a, b :: StrGt(a, b) == StrLt(b, a);
    }
    var s := Order(listing, reverse);
    assert multiset(s) == multiset(listing);
    if reverse {
      SortBySorted(listing, StrGt);
    } else {
      SortBySorted(listing, StrLt);
    }
    forall i, j | 0 <= i < j < |s| ensures (if reverse then StrLt(s[j], s[i]) else StrLt(s[i], s[j])) {
      if s[i] == s[j] {
        RepeatCounts(s, i, j);
      }
      StrLtTotal(s[i], s[j]);
    }
  }

  lemma {:induction false} ImagesIncreasing(s: seq<string>, lt: (string, string) -> bool)
    requires Increasing(s, lt)
    ensures Increasing(Images(s), lt)
    ensures forall x :: x in Images(s) ==> x in s
    decreases |s|
  {
    ImagesIn(s);
    if s != [] {
      assert Increasing(s[1..], lt) by {
        forall i, j | 0 <= i < j < |s| - 1 ensures lt(s[1..][i], s[1..][j]) {
          assert s[1..][i] == s[i + 1] && s[1..][j] == s[j + 1];
        }
      }
      ImagesIncreasing(s[1..], lt);
      if IsImage(s[0]) {
        var rest := Images(s[1..]);
        assert forall y :: y in rest ==> lt(s[0], y) by {
          forall y | y in rest ensures lt(s[0], y) {
            assert y in s[1..];
            var k :| 0 <= k < |s| - 1 && s[1..][k] == y;
            assert s[k + 1] == y;
          }
        }
        ConsIncreasing(s[0], rest, lt);
      }
    }
  }

  /** An element below everything in an increasing list can go in front. */
  lemma ConsIncreasing(x: string, rest: seq<string>, lt: (string, string) -> bool)
    requires Increasing(rest, lt) && forall y :: y in rest ==> lt(x, y)
    ensures Increasing([x] + rest, lt)
  {
    var r := [x] + rest;
    forall i, j | 0 <= i < j < |r| ensures lt(r[i], r[j]) {
      assert r[j] == rest[j - 1];
      if i > 0 {
        assert r[i] == rest[i - 1];
      }
    }
  }

  lemma {:induction false} AfterIncreasing(s: seq<string>, current: string, lt: (string, string) -> bool)
    requires Increasing(s, lt) && After(s, current).Some?
    ensures lt(current, After(s, current).value)
    decreases |s|
  {
    if s[0] != current {
      assert Increasing(s[1..], lt) by {
        forall i, j | 0 <= i < j < |s| - 1 ensures lt(s[1..][i], s[1..][j]) {
          assert s[1..][i] == s[i + 1] && s[1..][j] == s[j + 1];
        }
      }
      AfterIncreasing(s[1..], current, lt);
    }
  }

  /** The image the scan picks comes alphabetically after the current one
      (before it when reversed). */
  lemma ScanPicksLater(listing: seq<string>, reverse: bool, current: string)
    requires NoRepeats(listing)
    requires ScanFrom(Order(listing, reverse), current, false).Some?
    ensures var next := ScanFrom(Order(listing, reverse), current, false).value;
      IsImage(next) && (if reverse then StrLt(next, current) else StrLt(current, next))
  {
    var order := Order(listing, reverse);
    OrderIncreasing(listing, reverse);
    ScanIsAfter(order, current);
    if reverse {
      ImagesIncreasing(order, StrGt);
      AfterIncreasing(Images(order), current, StrGt);
    } else {
      ImagesIncreasing(order, StrLt);
      AfterIncreasing(Images(order), current, StrLt);
    }
    AfterIsImage(Images(order), current);
    ImagesAreImages(order);
  }

  lemma {:induction false} AfterIsImage(s: seq<string>, current: string)
    requires After(s, current).Some?
    ensures After(s, current).value in s
    decreases |s|
  {
    if s[0] != current {
      AfterIsImage(s[1..], current);
    }
  }

  lemma {:induction false} ImagesAreImages(s: seq<string>)
    ensures forall x :: x in Images(s) ==> IsImage(x)
    decreases |s|
  {
    if s != [] {
      ImagesAreImages(s[1..]);
    }
  }

  // ---------------------------------------------------------------------
  // The file buttons

  lemma LastIndexOfAt(s: string, c: char, k: nat)
    requires k < |s| && s[k] == c && c !in s[k + 1..]
    ensures LastIndexOf(s, c) == Some(k)
  {
    assert s[k] in s;
    var r := LastIndexOf(s, c).value;
    assert forall j :: r < j < |s| ==> s[j] != c by {
      forall j | r < j < |s| ensures s[j] != c {
        assert s[j] == s[r + 1..][j - r - 1];
      }
    }
    assert forall j :: k < j < |s| ==> s[j] != c by {
      forall j | k < j < |s| ensures s[j] != c {
        assert s[j] == s[k + 1..][j - k - 1];
      }
    }
  }

  /** A listed name put in the current file's directory has that name as its
      basename. */
  lemma BasenameInDir(current: string, fn: string)
    requires '/' !in fn
    ensures Basename(DirPart(current) + fn) == fn
  {
    var d := DirPart(current);
    if d == [] {
      assert d + fn == fn;
      assert LastIndexOf(fn, '/') == None;
    } else {
      assert d[|d| - 1] == '/';
      BasenameAfterSlash(d, fn);
    }
  }

  /** After a final slash, the file name is the basename. */
  lemma BasenameAfterSlash(d: string, fn: string)
    requires |d| > 0 && d[|d| - 1] == '/' && '/' !in fn
    ensures Basename(d + fn) == fn
  {
    var p := d + fn;
    var k := |d| - 1;
    assert p[k] == '/';
    assert p[k + 1..] == fn;
    LastIndexOfAt(p, '/', k);
  }

  /** As wired, the Next button never changes the file, even when the
      listing has a next image. */
  lemma NextButtonInertAsWritten(current: string, listing: seq<string>, dirValid: bool, isFile: string -> bool)
    requires NextFileName(current, listing, false, dirValid, isFile) != current
    ensures AfterPressAsWritten(NextButton, current, listing, dirValid, isFile) != NextFileName(current, listing, false, dirValid, isFile)
  {
  }

  /** Wired as intended, the Next button moves to an image that comes
      alphabetically after the current one, and the Prev button to one that
      comes before it. */
  lemma ButtonsMoveInOrder(b: FileButton, current: string, listing: seq<string>, dirValid: bool, isFile: string -> bool)
    requires NoRepeats(listing)
    requires forall k :: 0 <= k < |listing| ==> '/' !in listing[k]
    ensures var r := AfterPress(b, current, listing, dirValid, isFile);
      r != current ==>
        && IsImage(Basename(r))
        && (if b == NextButton then StrLt(Basename(current), Basename(r)) else StrLt(Basename(r), Basename(current)))
  {
    var reverse := b == PrevButton;
    var order := Order(listing, reverse);
    var r := AfterPress(b, current, listing, dirValid, isFile);
    if r != current {
      var next := ScanFrom(order, Basename(current), false);
      assert next.Some?;
      ScanPicksLater(listing, reverse, Basename(current));
      ScanIsAfter(order, Basename(current));
      AfterIsImage(Images(order), Basename(current));
      ImagesIn(order);
      assert next.value in order;
      assert multiset(order) == multiset(listing);
      assert next.value in multiset(listing);
      assert '/' !in next.value;
      BasenameInDir(current, next.value);
    }
  }

  lemma {:induction false} ImagesIn(s: seq<string>)
    ensures forall x :: x in Images(s) ==> x in s
    decreases |s|
  {
    if s != [] {
      ImagesIn(s[1..]);
    }
  }
}
