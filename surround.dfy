/** The "Surround With" dialog's guess of the closing text for a given opening
    text: a closing tag for an opening tag, the partner of a bracket or quote,
    and otherwise the opening text itself. */
module Surround {
  import opened Wrappers
  import opened Text

  /** `\w` of a regular expression, restricted to ASCII: letters, digits, `_`. */
  predicate WordChar(c: char) {
    'a' <= c <= 'z' || 'A' <= c <= 'Z' || '0' <= c <= '9' || c == '_'
  }

  predicate AllWord(s: string) {
    forall i :: 0 <= i < |s| ==> WordChar(s[i])
  }

  /** Length of the longest run of word characters that s starts with: the
      greedy `\w+`. */
  function WordRun(s: string): (n: nat)
    ensures n <= |s| && AllWord(s[..n])
    ensures n == |s| || !WordChar(s[n])
    decreases |s|
  {
    if s == [] || !WordChar(s[0]) then 0
    else
      var m := WordRun(s[1..]);
      assert s[..1 + m] == [s[0]] + s[1..][..m];
      1 + m
  }

  /** `.*>$` matched from the start of rest: rest, less one final newline,
      ends with `>` and holds no newline (`.` does not match one, and `$` also
      matches just before a final newline). */
  predicate TailMatches(rest: string) {
    var body := if |rest| > 0 && rest[|rest| - 1] == '\n' then rest[..|rest| - 1] else rest;
    |body| > 0 && body[|body| - 1] == '>' && '\n' !in body
  }

  /** The group of `re.match(r"<(\w+).*>$", before)`, if it matches. A shorter
      `\w+` never rescues a failed match, since the tail then still ends in the
      same place and gains only word characters. */
  function TagOf(before: string): Option<string> {
    if |before| >= 2 && before[0] == '<' then
      var n := WordRun(before[1..]);
      if n >= 1 && TailMatches(before[1 + n..]) then Some(before[1..1 + n]) else None
    else None
  }

  /** The fixed openings and their partners, in the order of the `pairs` dict. */
  const Pairs: seq<(string, string)> := [
    ("<", ">"), ("<<", ">>"), ("[**", "]"), ("[** ", "]"), ("[", "]"), ("{", "}"),
    ("(", ")"), ("\"", "\""), ("'", "'"), ("“", "”"), ("‘", "’")
  ]

  /** `dict.get(key)` on an association list: the first pair with that key. */
  function Lookup(pairs: seq<(string, string)>, key: string): Option<string>
    decreases |pairs|
  {
    if pairs == [] then None
    else if pairs[0].0 == key then Some(pairs[0].1)
    else Lookup(pairs[1..], key)
  }

  /** `autofill_after`: the closing text guessed for `before`. */
  function AutofillAfter(before: string): (after: string) {
    match TagOf(before)
    case Some(tag) => "</" + tag + ">"
    case None =>
      match Lookup(Pairs, before)
      case Some(partner) => partner
      case None => before
  }

  predicate DistinctKeys(pairs: seq<(string, string)>) {
    forall i, j :: 0 <= i < j < |pairs| ==> pairs[i].0 != pairs[j].0
  }

  // ---------------------------------------------------------------------
  // Properties

  /** Looking up a key of a list with distinct keys gives that key's value. */
  lemma {:induction false} LookupDistinct(pairs: seq<(string, string)>, k: nat)
    requires DistinctKeys(pairs) && k < |pairs|
    ensures Lookup(pairs, pairs[k].0) == Some(pairs[k].1)
    decreases k
  {
    if k > 0 {
      assert pairs[0].0 != pairs[k].0;
      assert DistinctKeys(pairs[1..]) by {
        forall i, j | 0 <= i < j < |pairs| - 1 ensures pairs[1..][i].0 != pairs[1..][j].0 {
          assert pairs[1..][i] == pairs[i + 1] && pairs[1..][j] == pairs[j + 1];
        }
      }
      LookupDistinct(pairs[1..], k - 1);
    }
  }

  /** A key that no pair carries is not found. */
  lemma {:induction false} LookupAbsent(pairs: seq<(string, string)>, key: string)
    requires forall k :: 0 <= k < |pairs| ==> pairs[k].0 != key
    ensures Lookup(pairs, key) == None
    decreases |pairs|
  {
    if pairs != [] {
      assert pairs[0].0 != key;
      LookupAbsent(pairs[1..], key);
    }
  }

  /** The greedy word run of a word followed by a non-word character is the word. */
  lemma {:induction false} WordRunOf(w: string, v: string)
    requires AllWord(w) && |v| > 0 && !WordChar(v[0])
    ensures WordRun(w + v) == |w|
    decreases |w|
  {
    if w == [] {
      assert w + v == v;
    } else {
      assert (w + v)[1..] == w[1..] + v;
      WordRunOf(w[1..], v);
    }
  }

  /** A rest of the form attrs + ">" + optional newline, without other
      newlines, matches `.*>$`, and only such a rest does. */
  lemma TailShape(rest: string) returns (attrs: string, newline: bool)
    requires TailMatches(rest)
    ensures '\n' !in attrs
    ensures rest == attrs + ">" + (if newline then "\n" else "")
  {
    newline := |rest| > 0 && rest[|rest| - 1] == '\n';
    var body := if newline then rest[..|rest| - 1] else rest;
    attrs := body[..|body| - 1];
    assert body == attrs + ">";
  }

  lemma TailOfShape(attrs: string, newline: bool)
    requires '\n' !in attrs
    ensures TailMatches(attrs + ">" + (if newline then "\n" else ""))
  {
    var rest := attrs + ">" + (if newline then "\n" else "");
    if newline {
      assert rest[..|rest| - 1] == attrs + ">";
    }
  }

  /** An opening tag, with or without attributes and with an optional final
      newline, is closed by the matching closing tag. */
  lemma AutofillClosesTag(tag: string, attrs: string, newline: bool)
    requires |tag| >= 1 && AllWord(tag)
    requires attrs == [] || !WordChar(attrs[0])
    requires '\n' !in attrs
    ensures AutofillAfter("<" + tag + attrs + ">" + (if newline then "\n" else "")) == "</" + tag + ">"
  {
    var nl := if newline then "\n" else "";
    var end := attrs + ">" + nl;
    Assemble(tag, attrs, nl);
    assert end[0] == if attrs == [] then '>' else attrs[0];
    TailOfShape(attrs, newline);
    TagOfParts(tag, end);
  }

  /** `<`, a word and a rest that does not continue it and matches the tail. */
  lemma TagOfParts(tag: string, end: string)
    requires |tag| >= 1 && AllWord(tag)
    requires |end| > 0 && !WordChar(end[0]) && TailMatches(end)
    ensures TagOf("<" + (tag + end)) == Some(tag)
  {
    var before := "<" + (tag + end);
    assert before[1..] == tag + end;
    WordRunOf(tag, end);
    assert before[1 + |tag|..] == end;
    assert before[1..1 + |tag|] == tag;
  }

  lemma Assemble(tag: string, attrs: string, nl: string)
    ensures "<" + (tag + (attrs + ">" + nl)) == "<" + tag + attrs + ">" + nl
  {
  }

  /** Conversely, a tag is found only in an opening tag: `<`, the tag's word
      characters, attributes that do not continue the tag and hold no newline,
      `>` and an optional final newline. */
  lemma TagShape(before: string, tag: string) returns (attrs: string, newline: bool)
    requires TagOf(before) == Some(tag)
    ensures |tag| >= 1 && AllWord(tag)
    ensures attrs == [] || !WordChar(attrs[0])
    ensures '\n' !in attrs
    ensures before == "<" + tag + attrs + ">" + (if newline then "\n" else "")
  {
    var rest := TagSplit(before, tag);
    attrs, newline := TailShape(rest);
    var nl := if newline then "\n" else "";
    Assemble(tag, attrs, nl);
    assert attrs == [] || attrs[0] == rest[0];
  }

  /** A tag found splits the text into `<`, the tag and a rest matching the tail. */
  lemma TagSplit(before: string, tag: string) returns (rest: string)
    requires TagOf(before) == Some(tag)
    ensures |tag| >= 1 && AllWord(tag)
    ensures TailMatches(rest) && |rest| > 0 && !WordChar(rest[0])
    ensures before == "<" + (tag + rest)
  {
    var s := before[1..];
    var n := WordRun(s);
    assert n >= 1 && TailMatches(before[1 + n..]) && tag == before[1..1 + n];
    assert before[1 + n..] == s[n..];
    assert before[1..1 + n] == s[..n];
    rest := s[n..];
    assert |rest| > 0 && rest[0] == s[n];
    assert s == s[..n] + rest;
    assert before == "<" + s;
  }

  /** Length and first character: enough to tell the openings apart. */
  function Sig(key: string): (int, char) {
    (|key|, if key == [] then ' ' else key[0])
  }

  const Sigs: seq<(int, char)> := [
    (1, '<'), (2, '<'), (3, '['), (4, '['), (1, '['), (1, '{'),
    (1, '('), (1, '"'), (1, '\''), (1, '“'), (1, '‘')
  ]

  lemma PairsDistinct()
    ensures DistinctKeys(Pairs)
  {
    assert forall k :: 0 <= k < |Pairs| ==> Sig(Pairs[k].0) == Sigs[k];
    assert forall i, j :: 0 <= i < j < |Sigs| ==> Sigs[i] != Sigs[j];
    forall i, j | 0 <= i < j < |Pairs| ensures Pairs[i].0 != Pairs[j].0 {
      assert Sig(Pairs[i].0) != Sig(Pairs[j].0);
    }
  }

  /** No opening in the pair table looks like a tag, and every one gets its
      own partner. */
  lemma AutofillPairs(k: nat)
    requires k < |Pairs|
    ensures AutofillAfter(Pairs[k].0) == Pairs[k].1
  {
    PairsDistinct();
    LookupDistinct(Pairs, k);
    NoKeyIsTag(k);
  }

  lemma NoKeyIsTag(k: nat)
    requires k < |Pairs|
    ensures TagOf(Pairs[k].0) == None
  {
    var key := Pairs[k].0;
    if |key| >= 2 && key[0] == '<' {
      assert forall i :: 0 <= i < |Pairs| && |Pairs[i].0| >= 2 && Pairs[i].0[0] == '<' ==> i == 1;
      assert key[1..][0] == '<';
    }
  }

  /** Any other text that is not a tag is its own closing text. */
  lemma AutofillOtherwiseSame(before: string)
    requires TagOf(before) == None
    requires forall k :: 0 <= k < |Pairs| ==> Pairs[k].0 != before
    ensures AutofillAfter(before) == before
  {
    LookupAbsent(Pairs, before);
  }

  lemma AutofillExamples()
    ensures AutofillAfter("<<") == ">>"
    ensures AutofillAfter("[**") == "]"
    ensures AutofillAfter("<i>") == "</i>"
  {
    assert AutofillAfter("<<") == ">>" by {
      AutofillPairs(1);
    }
    assert AutofillAfter("[**") == "]" by {
      AutofillPairs(2);
    }
    assert AutofillAfter("<i>") == "</i>" by {
      assert TailMatches(">");
      TagOfParts("i", ">");
      assert "<" + ("i" + ">") == "<i>";
    }
  }

  /** An opening tag without its `>` is not a tag and is left as it is. */
  lemma AutofillUnclosedTag()
    ensures AutofillAfter("<i") == "<i"
  {
    var s := "<i"[1..];
    assert s == "i";
    assert WordRun(s[1..]) == 0;
    assert "<i"[2..] == [];
    assert TagOf("<i") == None;
    AutofillOtherwiseSame("<i");
  }
}
