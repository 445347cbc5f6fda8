/** Compose sequences: the table of keystroke sequences and the characters they
    produce, the builders that fill it, and the interpretation of a typed sequence. */
module Compose {
  import opened Wrappers
  import opened Text

  /** One assignment `table[key] = value`. */
  type Write = (string, string)

  /** The table after performing the writes in order. */
  function Written(m: map<string, string>, w: seq<Write>): map<string, string> {
    if w == [] then m else Written(m, w[..|w| - 1])[w[|w| - 1].0 := w[|w| - 1].1]
  }

  /** The value of the last write to k, if any. */
  function LastWrite(w: seq<Write>, k: string): Option<string> {
    if w == [] then None
    else if w[|w| - 1].0 == k then Some(w[|w| - 1].1)
    else LastWrite(w[..|w| - 1], k)
  }

  /** A key keeps the value of the last write to it, or its old value when never written. */
  lemma {:induction false} WrittenLookup(m: map<string, string>, w: seq<Write>, k: string)
    ensures k in Written(m, w) <==> k in m || LastWrite(w, k).Some?
    ensures LastWrite(w, k).Some? ==> Written(m, w)[k] == LastWrite(w, k).value
    ensures LastWrite(w, k).None? && k in m ==> Written(m, w)[k] == m[k]
  {
    if w != [] {
      WrittenLookup(m, w[..|w| - 1], k);
    }
  }

  lemma {:induction false} WrittenAppend(m: map<string, string>, a: seq<Write>, b: seq<Write>)
    ensures Written(m, a + b) == Written(Written(m, a), b)
    decreases |b|
  {
    if b != [] {
      assert (a + b)[..|a + b| - 1] == a + b[..|b| - 1];
      WrittenAppend(m, a, b[..|b| - 1]);
    } else {
      assert a + b == a;
    }
  }

  lemma {:induction false} LastWriteAppend(a: seq<Write>, b: seq<Write>, k: string)
    ensures LastWrite(a + b, k) == if LastWrite(b, k).Some? then LastWrite(b, k) else LastWrite(a, k)
    decreases |b|
  {
    if b != [] {
      assert (a + b)[..|a + b| - 1] == a + b[..|b| - 1];
      LastWriteAppend(a, b[..|b| - 1], k);
    } else {
      assert a + b == a;
    }
  }

  lemma WrittenPair(m: map<string, string>, x: Write, y: Write)
    ensures Written(m, [x, y]) == m[x.0 := x.1][y.0 := y.1]
  {
    assert [x][..0] == [];
    assert Written(m, [x]) == m[x.0 := x.1];
    assert [x, y][..1] == [x];
    assert Written(m, [x, y]) == Written(m, [x])[y.0 := y.1];
  }

  lemma LastWriteSingle(x: Write, k: string)
    ensures LastWrite([x], k) == if x.0 == k then Some(x.1) else None
  {
    assert [x][..0] == [];
  }

  // ---------------------------------------------------------------------
  // What each builder writes

  /** init_chars: each sequence gives the character. */
  function CharsWrites(c: string, seqs: seq<string>): seq<Write> {
    if seqs == [] then [] else CharsWrites(c, seqs[..|seqs| - 1]) + [(seqs[|seqs| - 1], c)]
  }

  /** init_char_reversible: each sequence and its reverse give the character. */
  function ReversibleWrites(c: string, seqs: seq<string>): seq<Write> {
    if seqs == [] then []
    else
      var s := seqs[|seqs| - 1];
      ReversibleWrites(c, seqs[..|seqs| - 1]) + [(s, c), (Reverse(s), c)]
  }

  /** init_char_case: each sequence gives the character, its lower case the lower case. */
  function CaseWrites(c: string, seqs: seq<string>): seq<Write> {
    if seqs == [] then []
    else
      var s := seqs[|seqs| - 1];
      CaseWrites(c, seqs[..|seqs| - 1]) + [(s, c), (Lower(s), Lower(c))]
  }

  /** init_accent: base then accent, and accent then base, in both cases. */
  function AccentWrites(c: string, base: string, accents: seq<string>): seq<Write> {
    if accents == [] then []
    else
      var a := accents[|accents| - 1];
      AccentWrites(c, base, accents[..|accents| - 1]) + CaseWrites(c, [base + a]) + CaseWrites(c, [a + base])
  }

  /** init_combining: "+" then an accent gives the mark above, "_" the mark below,
      when that mark is given. */
  function CombiningWrites(above: string, below: string, accents: seq<string>): seq<Write> {
    if accents == [] then []
    else
      var a := accents[|accents| - 1];
      CombiningWrites(above, below, accents[..|accents| - 1])
        + (if above != [] then [("+" + a, above)] else [])
        + (if below != [] then [("_" + a, below)] else [])
  }

  /** The Latin letters standing for the Greek alphabet, in Greek order. */
  const GreekLetters: string := "ABGDEZHQIKLMNXOPRJSTUFCYW"

  const UpperAlpha: int := 0x391
  const LowerAlpha: int := 0x3B1

  predicate IsScalar(n: int) {
    (0 <= n < 0xD800) || (0xE000 <= n < 0x110000)
  }

  /** `chr(n)` for a Unicode scalar value. */
  function Chr(n: int): string
    requires IsScalar(n)
  {
    [n as char]
  }

  /** init_greek_alphabet for the first n letters: "=" and a letter give the Greek
      capital at the same offset, "=" and the lower-case letter the small letter. */
  function AlphabetWrites(n: nat): seq<Write>
    requires n <= |GreekLetters|
  {
    if n == 0 then []
    else
      var b := GreekLetters[n - 1];
      AlphabetWrites(n - 1) + [("=" + [b], Chr(UpperAlpha + n - 1)), ("=" + [LowerChar(b)], Chr(LowerAlpha + n - 1))]
  }

  /** init_greek_accent without the iota subscript: varia with backslash or backtick,
      oxia (the next code point) with slash or apostrophe, in both cases. */
  function GreekAccentPlain(c: char, base: string): seq<Write>
    requires IsScalar(c as int + 1) && IsScalar(LowerChar(c) as int + 1)
  {
    var lbase := Lower(base);
    var lc := LowerChar(c);
    [("=\\" + base, [c]), ("=`" + base, [c]),
     ("=/" + base, Chr(c as int + 1)), ("='" + base, Chr(c as int + 1)),
     ("=\\" + lbase, [lc]), ("=`" + lbase, [lc]),
     ("=/" + lbase, Chr(lc as int + 1)), ("='" + lbase, Chr(lc as int + 1))]
  }

  /** The iota-subscript forms: the capital, the small letter, and the small letter
      with varia or oxia one code point either side. */
  function GreekAccentIota(ui: char, base: string): seq<Write>
    requires IsScalar(LowerChar(ui) as int - 1) && IsScalar(LowerChar(ui) as int + 1)
  {
    var lbase := Lower(base);
    var li := LowerChar(ui);
    [("=|" + base, [ui]), ("=|" + lbase, [li]),
     ("=\\|" + lbase, Chr(li as int - 1)), ("=`|" + lbase, Chr(li as int - 1)),
     ("=/|" + lbase, Chr(li as int + 1)), ("='|" + lbase, Chr(li as int + 1))]
  }

  predicate GreekAccentRange(c: char, uiota: Option<char>) {
    && IsScalar(c as int + 1) && IsScalar(LowerChar(c) as int + 1)
    && (uiota.Some? ==> IsScalar(LowerChar(uiota.value) as int - 1) && IsScalar(LowerChar(uiota.value) as int + 1))
  }

  /** init_greek_accent */
  function GreekAccentWrites(c: char, base: string, uiota: Option<char>): seq<Write>
    requires GreekAccentRange(c, uiota)
  {
    GreekAccentPlain(c, base) + (if uiota.Some? then GreekAccentIota(uiota.value, base) else [])
  }

  /** The breathing and accent marks of one group of Greek Extended letters, with
      the offset of that form from the capital with smooth breathing. */
  const Forms: seq<(string, int)> :=
    [(")", 0), ("(", 1), ("(`", 2), ("(\\", 2), (")`", 3), (")\\", 3), ("('", 4), ("(/", 4),
     (")'", 5), (")/", 5), ("(^", 6), ("(~", 6), (")^", 7), (")~", 7)]

  /** Capitals and small letters of a group lie within 8 code points either side. */
  predicate BreathingRange(o: int) {
    (8 <= o && o + 7 < 0xD800) || (0xE008 <= o && o + 7 < 0x110000)
  }

  /** The capital forms of a group: offsets 0 to 7 from o. */
  function UpperForms(o: int, base: string): (w: seq<Write>)
    requires BreathingRange(o)
    ensures |w| == |Forms|
  {
    seq(|Forms|, i requires 0 <= i < |Forms| => ("=" + Forms[i].0 + base, Chr(o + Forms[i].1)))
  }

  /** The small-letter forms: the same marks, 8 code points below the capitals. */
  function LowerForms(o: int, lbase: string): (w: seq<Write>)
    requires BreathingRange(o)
    ensures |w| == |Forms|
  {
    seq(|Forms|, i requires 0 <= i < |Forms| => ("=" + Forms[i].0 + lbase, Chr(o - 8 + Forms[i].1)))
  }

  /** One pass of init_greek_breathing as the source writes it: the last assignment
      uses the capital base, so it overwrites a capital form with a small letter. */
  function BreathingStepAsWritten(o: int, base: string, lbase: string): seq<Write>
    requires BreathingRange(o)
  {
    UpperForms(o, base) + LowerForms(o, lbase)[..|Forms| - 1] + [("=)~" + base, Chr(o - 1))]
  }

  /** One pass of init_greek_breathing with the small-letter base throughout. */
  function BreathingStep(o: int, base: string, lbase: string): seq<Write>
    requires BreathingRange(o)
  {
    UpperForms(o, base) + LowerForms(o, lbase)
  }

  /** The capitals' code points: the letter, then the iota-subscript form. */
  function BreathingOrds(c: char, uiota: Option<char>): seq<int> {
    if uiota.Some? then [c as int, uiota.value as int] else [c as int]
  }

  /** All passes of init_greek_breathing over the given code points; each pass puts
      "|" before both bases. */
  function BreathingWrites(ords: seq<int>, base: string, lbase: string): seq<Write>
    requires forall i :: 0 <= i < |ords| ==> BreathingRange(ords[i])
    decreases |ords|
  {
    if ords == [] then [] else BreathingStep(ords[0], base, lbase) + BreathingWrites(ords[1..], "|" + base, "|" + lbase)
  }

  // ---------------------------------------------------------------------
  // The table

  class ComposeTable {
    var table: map<string, string>

    constructor ()
      ensures table == map[]
    {
      table := map[];
    }

    method Put(k: string, v: string)
      modifies this
      ensures table == old(table)[k := v]
    {
      table := table[k := v];
    }

    method InitChars(c: string, seqs: seq<string>)
      modifies this
      ensures table == Written(old(table), CharsWrites(c, seqs))
    {
      var i := 0;
      while i < |seqs|
        invariant 0 <= i <= |seqs|
        invariant table == Written(old(table), CharsWrites(c, seqs[..i]))
      {
        assert seqs[..i + 1][..i] == seqs[..i];
        WrittenAppend(old(table), CharsWrites(c, seqs[..i]), [(seqs[i], c)]);
        Put(seqs[i], c);
        i := i + 1;
      }
      assert seqs[..i] == seqs;
    }

    method InitCharReversible(c: string, seqs: seq<string>)
      modifies this
      ensures table == Written(old(table), ReversibleWrites(c, seqs))
    {
      var i := 0;
      while i < |seqs|
        invariant 0 <= i <= |seqs|
        invariant table == Written(old(table), ReversibleWrites(c, seqs[..i]))
      {
        assert seqs[..i + 1][..i] == seqs[..i];
        WrittenAppend(old(table), ReversibleWrites(c, seqs[..i]), [(seqs[i], c), (Reverse(seqs[i]), c)]);
        WrittenPair(table, (seqs[i], c), (Reverse(seqs[i]), c));
        Put(seqs[i], c);
        Put(Reverse(seqs[i]), c);
        i := i + 1;
      }
      assert seqs[..i] == seqs;
    }

    method InitCharCase(c: string, seqs: seq<string>)
      modifies this
      ensures table == Written(old(table), CaseWrites(c, seqs))
    {
      var lc := Lower(c);
      var i := 0;
      while i < |seqs|
        invariant 0 <= i <= |seqs|
        invariant table == Written(old(table), CaseWrites(c, seqs[..i]))
      {
        assert seqs[..i + 1][..i] == seqs[..i];
        var ls := Lower(seqs[i]);
        WrittenAppend(old(table), CaseWrites(c, seqs[..i]), [(seqs[i], c), (ls, lc)]);
        WrittenPair(table, (seqs[i], c), (ls, lc));
        Put(seqs[i], c);
        Put(ls, lc);
        i := i + 1;
      }
      assert seqs[..i] == seqs;
    }

    method InitAccent(c: string, base: string, accents: seq<string>)
      modifies this
      ensures table == Written(old(table), AccentWrites(c, base, accents))
    {
      var i := 0;
      while i < |accents|
        invariant 0 <= i <= |accents|
        invariant table == Written(old(table), AccentWrites(c, base, accents[..i]))
      {
        assert accents[..i + 1][..i] == accents[..i];
        var before := AccentWrites(c, base, accents[..i]);
        WrittenAppend(old(table), before, CaseWrites(c, [base + accents[i]]));
        WrittenAppend(old(table), before + CaseWrites(c, [base + accents[i]]), CaseWrites(c, [accents[i] + base]));
        InitCharCase(c, [base + accents[i]]);
        InitCharCase(c, [accents[i] + base]);
        i := i + 1;
      }
      assert accents[..i] == accents;
    }

    method InitCombining(above: string, below: string, accents: seq<string>)
      modifies this
      ensures table == Written(old(table), CombiningWrites(above, below, accents))
    {
      var i := 0;
      while i < |accents|
        invariant 0 <= i <= |accents|
        invariant table == Written(old(table), CombiningWrites(above, below, accents[..i]))
      {
        assert accents[..i + 1][..i] == accents[..i];
        var before := CombiningWrites(above, below, accents[..i]);
        var up := if above != [] then [("+" + accents[i], above)] else [];
        var down := if below != [] then [("_" + accents[i], below)] else [];
        WrittenAppend(old(table), before, up);
        WrittenAppend(old(table), before + up, down);
        if above != [] {
          Put("+" + accents[i], above);
        }
        if below != [] {
          Put("_" + accents[i], below);
        }
        i := i + 1;
      }
      assert accents[..i] == accents;
    }

    method InitGreekAlphabet()
      modifies this
      ensures table == Written(old(table), AlphabetWrites(|GreekLetters|))
    {
      var offset := 0;
      while offset < |GreekLetters|
        invariant 0 <= offset <= |GreekLetters|
        invariant table == Written(old(table), AlphabetWrites(offset))
      {
        var b := GreekLetters[offset];
        WrittenAppend(old(table), AlphabetWrites(offset),
          [("=" + [b], Chr(UpperAlpha + offset)), ("=" + [LowerChar(b)], Chr(LowerAlpha + offset))]);
        WrittenPair(table, ("=" + [b], Chr(UpperAlpha + offset)), ("=" + [LowerChar(b)], Chr(LowerAlpha + offset)));
        Put("=" + [b], Chr(UpperAlpha + offset));
        Put("=" + [LowerChar(b)], Chr(LowerAlpha + offset));
        offset := offset + 1;
      }
    }

    method InitGreekAccent(c: char, base: string, uiota: Option<char>)
      requires GreekAccentRange(c, uiota)
      modifies this
      ensures table == Written(old(table), GreekAccentWrites(c, base, uiota))
    {
      var w := GreekAccentWrites(c, base, uiota);
      ApplyWrites(w);
    }

    /** Performs the writes in order. */
    method ApplyWrites(w: seq<Write>)
      modifies this
      ensures table == Written(old(table), w)
    {
      var i := 0;
      while i < |w|
        invariant 0 <= i <= |w|
        invariant table == Written(old(table), w[..i])
      {
        assert w[..i + 1][..i] == w[..i];
        Put(w[i].0, w[i].1);
        i := i + 1;
      }
      assert w[..i] == w;
    }

    /** init_greek_breathing, with the small-letter base in its last assignment. */
    method InitGreekBreathing(c: char, base: string, uiota: Option<char>)
      requires forall i :: 0 <= i < |BreathingOrds(c, uiota)| ==> BreathingRange(BreathingOrds(c, uiota)[i])
      modifies this
      ensures table == Written(old(table), BreathingWrites(BreathingOrds(c, uiota), base, Lower(base)))
    {
      var ords := BreathingOrds(c, uiota);
      var b := base;
      var lb := Lower(base);
      var i := 0;
      while i < |ords|
        invariant 0 <= i <= |ords|
        invariant Written(old(table), BreathingWrites(ords, base, Lower(base)))
                  == Written(table, BreathingWrites(ords[i..], b, lb))
      {
        assert ords[i..][1..] == ords[i + 1..];
        WrittenAppend(table, BreathingStep(ords[i], b, lb), BreathingWrites(ords[i + 1..], "|" + b, "|" + lb));
        ApplyWrites(BreathingStep(ords[i], b, lb));
        b := "|" + b;
        lb := "|" + lb;
        i := i + 1;
      }
    }
  }

  // ---------------------------------------------------------------------
  // Interpretation

  /** What a typed sequence stands for. */
  datatype Composed = NoMatch | Found(text: string) | CodePoint(n: nat)

  /** The prefixes that may precede hex digits. */
  const HexPrefixes: seq<string> := ["0x", "0X", "\\x", "\\X", "x", "X", "U+", "u+", "U", "u"]

  /** `(0x|\\x|x|U\+?)?([0-9a-fA-F]{2,})` with IGNORECASE: the hex digits, if s matches. */
  function HexDigitsOf(s: string): Option<string> {
    if |s| >= 2 && AllHexDigits(s) then Some(s)
    else if |s| >= 4 && s[..2] in HexPrefixes && AllHexDigits(s[2..]) then Some(s[2..])
    else if |s| >= 3 && s[..1] in HexPrefixes && AllHexDigits(s[1..]) then Some(s[1..])
    else None
  }

  /** `#(\d{2,})`: the decimal digits, if s matches. */
  function DecimalDigitsOf(s: string): Option<string> {
    if |s| >= 3 && s[0] == '#' && AllDigits(s[1..]) then Some(s[1..]) else None
  }

  /** The decoding part of interpret_and_insert. */
  function Interpret(table: map<string, string>, s: string, force: bool): Composed {
    if s in table then Found(table[s])
    else if |s| == 4 && AllHexDigits(s) then CodePoint(HexValue(s))
    else if !force then NoMatch
    else match HexDigitsOf(s)
      case Some(d) => CodePoint(HexValue(d))
      case None =>
        match DecimalDigitsOf(s)
        case Some(d) => CodePoint(DecimalValue(d))
        case None => NoMatch
  }

  /** Whether something is inserted: a non-empty text, or a code point `chr` accepts. */
  predicate Inserts(r: Composed) {
    (r.Found? && r.text != []) || (r.CodePoint? && r.n < 0x110000)
  }

  /** The compose dialog: the text typed so far and what it has inserted. */
  class ComposeSequenceDialog {
    const dict: ComposeTable
    var text: string
    /** Everything inserted into the focused widget, oldest first. */
    var inserted: seq<Composed>
    /** Sequences added to the entry's history, oldest first. */
    var recorded: seq<string>
    var open: bool

    constructor (dict: ComposeTable)
      ensures this.dict == dict && text == [] && inserted == [] && recorded == [] && open
    {
      this.dict := dict;
      text := [];
      inserted := [];
      recorded := [];
      open := true;
    }

    /** interpret_and_insert: insert the composed character if the sequence is
        complete (or forced), and close the dialog on an unforced match. */
    method InterpretAndInsert(force: bool)
      modifies this
      ensures var r := Interpret(dict.table, text, force);
              && text == old(text)
              && (Inserts(r) ==> inserted == old(inserted) + [r] && recorded == old(recorded) + [text]
                                 && open == (old(open) && force))
              && (!Inserts(r) ==> unchanged(this))
    {
      var r := Interpret(dict.table, text, force);
      if !Inserts(r) {
        return;
      }
      inserted := inserted + [r];
      recorded := recorded + [text];
      if !force {
        open := false;
      }
    }

    /** apply_changes: a forced interpretation; the dialog stays open. */
    method ApplyChanges() returns (close: bool)
      modifies this
      ensures close
      ensures var r := Interpret(dict.table, text, true);
              && text == old(text) && open == old(open)
              && (Inserts(r) ==> inserted == old(inserted) + [r] && recorded == old(recorded) + [text])
              && (!Inserts(r) ==> inserted == old(inserted) && recorded == old(recorded))
    {
      InterpretAndInsert(true);
      close := true;
    }
  }
}

/** What the builders put in the table and how a sequence is interpreted. */
module ComposeProofs {
  import opened Wrappers
  import opened Text
  import opened Compose

  lemma LastWriteNone(w: seq<Write>, k: string)
    requires forall i :: 0 <= i < |w| ==> w[i].0 != k
    ensures LastWrite(w, k) == None
  {
    if w != [] {
      LastWriteNone(w[..|w| - 1], k);
    }
  }

  lemma LastWritePair(a: seq<Write>, x: Write, y: Write, k: string)
    ensures LastWrite(a + [x, y], k) ==
              if y.0 == k then Some(y.1) else if x.0 == k then Some(x.1) else LastWrite(a, k)
  {
    assert (a + [x, y])[..|a| + 1] == a + [x];
    assert (a + [x])[..|a|] == a;
  }

  // ---------------------------------------------------------------------
  // Builders

  /** init_chars maps exactly the given sequences to the character. */
  lemma {:induction false} CharsLookup(c: string, seqs: seq<string>, k: string)
    ensures LastWrite(CharsWrites(c, seqs), k) == if k in seqs then Some(c) else None
  {
    if seqs != [] {
      var pre := seqs[..|seqs| - 1];
      CharsLookup(c, pre, k);
      assert seqs == pre + [seqs[|seqs| - 1]];
      assert (CharsWrites(c, pre) + [(seqs[|seqs| - 1], c)])[..|CharsWrites(c, pre)|] == CharsWrites(c, pre);
    }
  }

  lemma {:induction false} ReverseReverse(s: string)
    ensures Reverse(Reverse(s)) == s
  {
    assert forall i :: 0 <= i < |s| ==> Reverse(Reverse(s))[i] == s[i];
  }

  /** init_char_reversible maps exactly the sequences and their reverses to the character. */
  lemma {:induction false} ReversibleLookup(c: string, seqs: seq<string>, k: string)
    ensures LastWrite(ReversibleWrites(c, seqs), k) == if k in seqs || Reverse(k) in seqs then Some(c) else None
  {
    if seqs != [] {
      var pre := seqs[..|seqs| - 1];
      var s := seqs[|seqs| - 1];
      ReversibleLookup(c, pre, k);
      LastWritePair(ReversibleWrites(c, pre), (s, c), (Reverse(s), c), k);
      ReverseReverse(s);
      ReverseReverse(k);
      assert seqs == pre + [s];
    }
  }

  lemma LowerIdempotent(s: string)
    ensures Lower(Lower(s)) == Lower(s)
  {
  }

  /** init_char_case: a key that is the lower case of a sequence gives the lower-case
      character; any other sequence gives the character; nothing else is written. */
  lemma {:induction false} CaseLookup(c: string, seqs: seq<string>, k: string)
    ensures LastWrite(CaseWrites(c, seqs), k) ==
              if exists t :: t in seqs && Lower(t) == k then Some(Lower(c))
              else if k in seqs then Some(c)
              else None
  {
    if seqs != [] {
      var pre := seqs[..|seqs| - 1];
      var s := seqs[|seqs| - 1];
      CaseLookup(c, pre, k);
      LastWritePair(CaseWrites(c, pre), (s, c), (Lower(s), Lower(c)), k);
      assert seqs == pre + [s];
      if Lower(s) != k && s == k {
        forall t | t in pre ensures Lower(t) != k {
          LowerIdempotent(t);
        }
      }
    }
  }

  /** A key already in lower case is only ever given the lower-case character. */
  lemma CaseLowerKey(c: string, seqs: seq<string>, k: string)
    requires Lower(k) == k
    ensures LastWrite(CaseWrites(c, seqs), k).Some? ==> LastWrite(CaseWrites(c, seqs), k) == Some(Lower(c))
  {
    CaseLookup(c, seqs, k);
  }

  /** init_accent: the lower-case form of base-then-accent and of accent-then-base
      gives the lower-case accented character. */
  lemma {:induction false} AccentLookup(c: string, base: string, accents: seq<string>, k: string)
    requires Lower(k) == k
    ensures LastWrite(AccentWrites(c, base, accents), k).Some? ==>
              LastWrite(AccentWrites(c, base, accents), k) == Some(Lower(c))
    ensures (exists a :: a in accents && (k == Lower(base + a) || k == Lower(a + base))) ==>
              LastWrite(AccentWrites(c, base, accents), k) == Some(Lower(c))
    ensures LastWrite(AccentWrites(c, base, accents), k).Some? ==>
              exists a :: a in accents && (k == Lower(base + a) || k == Lower(a + base))
  {
    if accents != [] {
      var pre := accents[..|accents| - 1];
      var a := accents[|accents| - 1];
      AccentLookup(c, base, pre, k);
      var w1 := CaseWrites(c, [base + a]);
      var w2 := CaseWrites(c, [a + base]);
      LastWriteAppend(AccentWrites(c, base, pre) + w1, w2, k);
      LastWriteAppend(AccentWrites(c, base, pre), w1, k);
      CaseLowerKey(c, [base + a], k);
      CaseLowerKey(c, [a + base], k);
      CaseLookup(c, [base + a], k);
      CaseLookup(c, [a + base], k);
      assert base + a in [base + a] && a + base in [a + base];
      assert accents == pre + [a];
      if LastWrite(AccentWrites(c, base, accents), k).Some? {
        if LastWrite(w2, k).Some? || LastWrite(w1, k).Some? {
          assert k == Lower(base + a) || k == Lower(a + base);
        } else {
          var a' :| a' in pre && (k == Lower(base + a') || k == Lower(a' + base));
          assert a' in accents;
        }
      }
    }
  }

  /** init_combining: "+" and an accent give the mark above, "_" and an accent the
      mark below, each only when that mark is given; nothing else is written. */
  lemma {:induction false} CombiningLookup(above: string, below: string, accents: seq<string>, k: string)
    ensures LastWrite(CombiningWrites(above, below, accents), k) ==
              if |k| >= 1 && k[0] == '+' && k[1..] in accents && above != [] then Some(above)
              else if |k| >= 1 && k[0] == '_' && k[1..] in accents && below != [] then Some(below)
              else None
  {
    if accents != [] {
      var pre := accents[..|accents| - 1];
      var a := accents[|accents| - 1];
      CombiningLookup(above, below, pre, k);
      var up := if above != [] then [("+" + a, above)] else [];
      var down := if below != [] then [("_" + a, below)] else [];
      var before := CombiningWrites(above, below, pre);
      var r0 := LastWrite(before, k);
      var r1 := LastWrite(before + up, k);
      assert r1 == if above != [] && "+" + a == k then Some(above) else r0 by {
        LastWriteAppend(before, up, k);
        LastWriteSingle(("+" + a, above), k);
      }
      assert LastWrite(before + up + down, k) == if below != [] && "_" + a == k then Some(below) else r1 by {
        LastWriteAppend(before + up, down, k);
        LastWriteSingle(("_" + a, below), k);
      }
      PrefixKey('+', a, k);
      PrefixKey('_', a, k);
      assert forall x :: x in accents <==> x in pre || x == a by {
        assert accents == pre + [a];
      }
    }
  }

  /** A one-character prefix and a rest make k exactly when k splits that way. */
  lemma PrefixKey(c: char, a: string, k: string)
    ensures ([c] + a == k) <==> (|k| >= 1 && k[0] == c && k[1..] == a)
  {
    if |k| >= 1 && k[0] == c && k[1..] == a {
      assert k == [k[0]] + k[1..];
    }
  }

  lemma GreekLettersDistinct()
    ensures forall i, j :: 0 <= i < j < |GreekLetters| ==> GreekLetters[i] != GreekLetters[j]
    ensures forall i :: 0 <= i < |GreekLetters| ==> 'A' <= GreekLetters[i] <= 'Z'
  {
  }

  /** init_greek_alphabet: "=" and the o-th letter give the o-th Greek capital, and
      "=" and its lower case the o-th small letter. */
  lemma {:induction false} AlphabetLookup(n: nat, o: nat)
    requires o < n <= |GreekLetters|
    ensures LastWrite(AlphabetWrites(n), "=" + [GreekLetters[o]]) == Some(Chr(UpperAlpha + o))
    ensures LastWrite(AlphabetWrites(n), "=" + [LowerChar(GreekLetters[o])]) == Some(Chr(LowerAlpha + o))
  {
    var b := GreekLetters[n - 1];
    var c := GreekLetters[o];
    assert 'A' <= b <= 'Z' && 'A' <= c <= 'Z' && (o < n - 1 ==> c != b) by {
      GreekLettersDistinct();
    }
    AlphaKeys(b, c);
    var up := ("=" + [b], Chr(UpperAlpha + n - 1));
    var low := ("=" + [LowerChar(b)], Chr(LowerAlpha + n - 1));
    var w := AlphabetWrites(n - 1);
    assert AlphabetWrites(n) == w + [up, low];
    assert LastWrite(w + [up, low], "=" + [c]) == Some(Chr(UpperAlpha + o)) by {
      LastWritePair(w, up, low, "=" + [c]);
      if o < n - 1 {
        AlphabetLookup(n - 1, o);
      }
    }
    assert LastWrite(w + [up, low], "=" + [LowerChar(c)]) == Some(Chr(LowerAlpha + o)) by {
      LastWritePair(w, up, low, "=" + [LowerChar(c)]);
      if o < n - 1 {
        AlphabetLookup(n - 1, o);
      }
    }
  }

  /** The two keys of one capital never collide with those of another. */
  lemma AlphaKeys(b: char, c: char)
    requires 'A' <= b <= 'Z' && 'A' <= c <= 'Z'
    ensures ("=" + [b] == "=" + [c]) == (b == c)
    ensures ("=" + [LowerChar(b)] == "=" + [LowerChar(c)]) == (b == c)
    ensures "=" + [LowerChar(b)] != "=" + [c] && "=" + [b] != "=" + [LowerChar(c)]
  {
    assert ("=" + [b])[1] == b && ("=" + [c])[1] == c;
    assert ("=" + [LowerChar(b)])[1] == LowerChar(b) && ("=" + [LowerChar(c)])[1] == LowerChar(c);
  }

  lemma LastWriteSnoc(a: seq<Write>, x: Write, k: string)
    ensures LastWrite(a + [x], k) == if x.0 == k then Some(x.1) else LastWrite(a, k)
  {
    assert (a + [x])[..|a|] == a;
  }

  /** The last write to k among six, from the right. */
  lemma LastWriteSix(p0: Write, p1: Write, p2: Write, p3: Write, p4: Write, p5: Write, k: string)
    ensures LastWrite([p0, p1, p2, p3, p4, p5], k) ==
              if p5.0 == k then Some(p5.1) else if p4.0 == k then Some(p4.1)
              else if p3.0 == k then Some(p3.1) else if p2.0 == k then Some(p2.1)
              else if p1.0 == k then Some(p1.1) else if p0.0 == k then Some(p0.1) else None
  {
    assert [p0, p1, p2, p3, p4, p5] == [p0, p1, p2, p3, p4] + [p5];
    assert [p0, p1, p2, p3, p4] == [p0, p1, p2, p3] + [p4];
    assert [p0, p1, p2, p3] == [p0, p1, p2] + [p3];
    assert [p0, p1, p2] == [p0, p1] + [p2];
    assert [p0, p1] == [p0] + [p1];
    LastWriteSnoc([p0, p1, p2, p3, p4], p5, k);
    LastWriteSnoc([p0, p1, p2, p3], p4, k);
    LastWriteSnoc([p0, p1, p2], p3, k);
    LastWriteSnoc([p0, p1], p2, k);
    LastWriteSnoc([p0], p1, k);
    LastWriteSingle(p0, k);
  }

  /** The last write to k among eight, from the right. */
  lemma LastWriteEight(p0: Write, p1: Write, p2: Write, p3: Write, p4: Write, p5: Write, p6: Write, p7: Write, k: string)
    ensures LastWrite([p0, p1, p2, p3, p4, p5, p6, p7], k) ==
              if p7.0 == k then Some(p7.1) else if p6.0 == k then Some(p6.1)
              else LastWrite([p0, p1, p2, p3, p4, p5], k)
  {
    assert [p0, p1, p2, p3, p4, p5, p6, p7] == [p0, p1, p2, p3, p4, p5, p6] + [p7];
    assert [p0, p1, p2, p3, p4, p5, p6] == [p0, p1, p2, p3, p4, p5] + [p6];
    LastWriteSnoc([p0, p1, p2, p3, p4, p5, p6], p7, k);
    LastWriteSnoc([p0, p1, p2, p3, p4, p5], p6, k);
  }

  /** The plain forms for an upper-case Latin base letter, in both cases. */
  lemma GreekAccentPlainLookup(c: char, b: char)
    requires IsScalar(c as int + 1) && IsScalar(LowerChar(c) as int + 1) && 'A' <= b <= 'Z'
    ensures var w := GreekAccentPlain(c, [b]);
            var l := LowerChar(b);
            && LastWrite(w, ['=', '\\', b]) == Some([c]) && LastWrite(w, ['=', '`', b]) == Some([c])
            && LastWrite(w, ['=', '/', b]) == Some(Chr(c as int + 1)) && LastWrite(w, ['=', '\'', b]) == Some(Chr(c as int + 1))
            && LastWrite(w, ['=', '\\', l]) == Some([LowerChar(c)]) && LastWrite(w, ['=', '`', l]) == Some([LowerChar(c)])
            && LastWrite(w, ['=', '/', l]) == Some(Chr(LowerChar(c) as int + 1))
            && LastWrite(w, ['=', '\'', l]) == Some(Chr(LowerChar(c) as int + 1))
  {
    var l := LowerChar(b);
    var lc := LowerChar(c);
    assert Lower([b]) == [l];
    var e0, e1, e2, e3 := (['=', '\\', b], [c]), (['=', '`', b], [c]), (['=', '/', b], Chr(c as int + 1)), (['=', '\'', b], Chr(c as int + 1));
    var e4, e5, e6, e7 := (['=', '\\', l], [lc]), (['=', '`', l], [lc]), (['=', '/', l], Chr(lc as int + 1)), (['=', '\'', l], Chr(lc as int + 1));
    forall x: char, y: char, p: char ensures [x, y] + [p] == [x, y, p] {}
    assert "=\\" + [b] == e0.0 && "=`" + [b] == e1.0 && "=/" + [b] == e2.0 && "='" + [b] == e3.0;
    assert "=\\" + [l] == e4.0 && "=`" + [l] == e5.0 && "=/" + [l] == e6.0 && "='" + [l] == e7.0;
    assert GreekAccentPlain(c, [b]) == [e0, e1, e2, e3, e4, e5, e6, e7];
    LastWriteEight(e0, e1, e2, e3, e4, e5, e6, e7, e0.0);
    LastWriteSix(e0, e1, e2, e3, e4, e5, e0.0);
    LastWriteEight(e0, e1, e2, e3, e4, e5, e6, e7, e1.0);
    LastWriteSix(e0, e1, e2, e3, e4, e5, e1.0);
    LastWriteEight(e0, e1, e2, e3, e4, e5, e6, e7, e2.0);
    LastWriteSix(e0, e1, e2, e3, e4, e5, e2.0);
    LastWriteEight(e0, e1, e2, e3, e4, e5, e6, e7, e3.0);
    LastWriteSix(e0, e1, e2, e3, e4, e5, e3.0);
    LastWriteEight(e0, e1, e2, e3, e4, e5, e6, e7, e4.0);
    LastWriteSix(e0, e1, e2, e3, e4, e5, e4.0);
    LastWriteEight(e0, e1, e2, e3, e4, e5, e6, e7, e5.0);
    LastWriteEight(e0, e1, e2, e3, e4, e5, e6, e7, e6.0);
    LastWriteEight(e0, e1, e2, e3, e4, e5, e6, e7, e7.0);
  }

  /** The iota forms: the capital and small letter after `=|`, the small letter
      with varia or oxia after `=` and an accent then `|`; they never touch a
      three-character key without '|'. */
  lemma GreekAccentIotaLookup(ui: char, b: char, k: string)
    requires IsScalar(LowerChar(ui) as int - 1) && IsScalar(LowerChar(ui) as int + 1) && 'A' <= b <= 'Z'
    ensures var w := GreekAccentIota(ui, [b]);
            && LastWrite(w, ['=', '|', b]) == Some([ui])
            && LastWrite(w, ['=', '|', LowerChar(b)]) == Some([LowerChar(ui)])
            && LastWrite(w, ['=', '\\', '|', LowerChar(b)]) == Some(Chr(LowerChar(ui) as int - 1))
            && LastWrite(w, ['=', '`', '|', LowerChar(b)]) == Some(Chr(LowerChar(ui) as int - 1))
            && LastWrite(w, ['=', '/', '|', LowerChar(b)]) == Some(Chr(LowerChar(ui) as int + 1))
            && LastWrite(w, ['=', '\'', '|', LowerChar(b)]) == Some(Chr(LowerChar(ui) as int + 1))
            && (|k| == 3 && k[1] != '|' ==> LastWrite(w, k) == None)
  {
    var l := LowerChar(b);
    var li := LowerChar(ui);
    assert Lower([b]) == [l];
    var i0, i1, i2 := (['=', '|', b], [ui]), (['=', '|', l], [li]), (['=', '\\', '|', l], Chr(li as int - 1));
    var i3, i4, i5 := (['=', '`', '|', l], Chr(li as int - 1)), (['=', '/', '|', l], Chr(li as int + 1)), (['=', '\'', '|', l], Chr(li as int + 1));
    assert "=|" + [b] == i0.0 && "=|" + [l] == i1.0 && "=\\|" + [l] == i2.0;
    assert "=`|" + [l] == i3.0 && "=/|" + [l] == i4.0 && "='|" + [l] == i5.0;
    assert GreekAccentIota(ui, [b]) == [i0, i1, i2, i3, i4, i5];
    LastWriteSix(i0, i1, i2, i3, i4, i5, i0.0);
    LastWriteSix(i0, i1, i2, i3, i4, i5, i1.0);
    LastWriteSix(i0, i1, i2, i3, i4, i5, i2.0);
    LastWriteSix(i0, i1, i2, i3, i4, i5, i3.0);
    LastWriteSix(i0, i1, i2, i3, i4, i5, i4.0);
    LastWriteSix(i0, i1, i2, i3, i4, i5, i5.0);
    LastWriteSix(i0, i1, i2, i3, i4, i5, k);
  }

  /** init_greek_accent for an upper-case Latin base letter: the varia and oxia forms
      in both cases, and the iota forms when given. */
  lemma GreekAccentLookup(c: char, b: char, uiota: Option<char>)
    requires GreekAccentRange(c, uiota) && 'A' <= b <= 'Z'
    ensures var w := GreekAccentWrites(c, [b], uiota);
            var l := LowerChar(b);
            && LastWrite(w, ['=', '\\', b]) == Some([c]) && LastWrite(w, ['=', '`', b]) == Some([c])
            && LastWrite(w, ['=', '/', b]) == Some(Chr(c as int + 1)) && LastWrite(w, ['=', '\'', b]) == Some(Chr(c as int + 1))
            && LastWrite(w, ['=', '\\', l]) == Some([LowerChar(c)]) && LastWrite(w, ['=', '`', l]) == Some([LowerChar(c)])
            && LastWrite(w, ['=', '/', l]) == Some(Chr(LowerChar(c) as int + 1))
            && LastWrite(w, ['=', '\'', l]) == Some(Chr(LowerChar(c) as int + 1))
            && (uiota.Some? ==>
                  var li := LowerChar(uiota.value);
                  && LastWrite(w, ['=', '|', b]) == Some([uiota.value])
                  && LastWrite(w, ['=', '|', l]) == Some([li])
                  && LastWrite(w, ['=', '\\', '|', l]) == Some(Chr(li as int - 1))
                  && LastWrite(w, ['=', '`', '|', l]) == Some(Chr(li as int - 1))
                  && LastWrite(w, ['=', '/', '|', l]) == Some(Chr(li as int + 1))
                  && LastWrite(w, ['=', '\'', '|', l]) == Some(Chr(li as int + 1)))
  {
    if uiota.Some? {
      assert GreekAccentWrites(c, [b], uiota) == GreekAccentPlain(c, [b]) + GreekAccentIota(uiota.value, [b]);
      PlainKeysThroughIota(c, b, uiota.value);
      IotaKeysAfterPlain(c, b, uiota.value);
    } else {
      GreekAccentPlainLookup(c, b);
      assert GreekAccentWrites(c, [b], uiota) == GreekAccentPlain(c, [b]);
    }
  }

  /** The iota forms written after the plain ones leave the plain keys alone. */
  lemma PlainKeysThroughIota(c: char, b: char, ui: char)
    requires GreekAccentRange(c, Some(ui)) && 'A' <= b <= 'Z'
    ensures var w := GreekAccentPlain(c, [b]) + GreekAccentIota(ui, [b]);
            var l := LowerChar(b);
            && LastWrite(w, ['=', '\\', b]) == Some([c]) && LastWrite(w, ['=', '`', b]) == Some([c])
            && LastWrite(w, ['=', '/', b]) == Some(Chr(c as int + 1)) && LastWrite(w, ['=', '\'', b]) == Some(Chr(c as int + 1))
            && LastWrite(w, ['=', '\\', l]) == Some([LowerChar(c)]) && LastWrite(w, ['=', '`', l]) == Some([LowerChar(c)])
            && LastWrite(w, ['=', '/', l]) == Some(Chr(LowerChar(c) as int + 1))
            && LastWrite(w, ['=', '\'', l]) == Some(Chr(LowerChar(c) as int + 1))
  {
    var plain := GreekAccentPlain(c, [b]);
    var iota := GreekAccentIota(ui, [b]);
    var l := LowerChar(b);
    GreekAccentPlainLookup(c, b);
    PlainThroughIota(plain, iota, ui, b, ['=', '\\', b]);
    PlainThroughIota(plain, iota, ui, b, ['=', '`', b]);
    PlainThroughIota(plain, iota, ui, b, ['=', '/', b]);
    PlainThroughIota(plain, iota, ui, b, ['=', '\'', b]);
    PlainThroughIota(plain, iota, ui, b, ['=', '\\', l]);
    PlainThroughIota(plain, iota, ui, b, ['=', '`', l]);
    PlainThroughIota(plain, iota, ui, b, ['=', '/', l]);
    PlainThroughIota(plain, iota, ui, b, ['=', '\'', l]);
  }

  /** After the plain forms, the iota keys hold the iota forms. */
  lemma IotaKeysAfterPlain(c: char, b: char, ui: char)
    requires GreekAccentRange(c, Some(ui)) && 'A' <= b <= 'Z'
    ensures var w := GreekAccentPlain(c, [b]) + GreekAccentIota(ui, [b]);
            var l := LowerChar(b);
            var li := LowerChar(ui);
            && LastWrite(w, ['=', '|', b]) == Some([ui])
            && LastWrite(w, ['=', '|', l]) == Some([li])
            && LastWrite(w, ['=', '\\', '|', l]) == Some(Chr(li as int - 1))
            && LastWrite(w, ['=', '`', '|', l]) == Some(Chr(li as int - 1))
            && LastWrite(w, ['=', '/', '|', l]) == Some(Chr(li as int + 1))
            && LastWrite(w, ['=', '\'', '|', l]) == Some(Chr(li as int + 1))
  {
    var plain := GreekAccentPlain(c, [b]);
    var iota := GreekAccentIota(ui, [b]);
    var l := LowerChar(b);
    GreekAccentIotaLookup(ui, b, []);
    LastWriteAppend(plain, iota, ['=', '|', b]);
    LastWriteAppend(plain, iota, ['=', '|', l]);
    LastWriteAppend(plain, iota, ['=', '\\', '|', l]);
    LastWriteAppend(plain, iota, ['=', '`', '|', l]);
    LastWriteAppend(plain, iota, ['=', '/', '|', l]);
    LastWriteAppend(plain, iota, ['=', '\'', '|', l]);
  }

  lemma PlainThroughIota(plain: seq<Write>, iota: seq<Write>, ui: char, b: char, k: string)
    requires IsScalar(LowerChar(ui) as int - 1) && IsScalar(LowerChar(ui) as int + 1) && 'A' <= b <= 'Z'
    requires iota == GreekAccentIota(ui, [b]) && |k| == 3 && k[1] != '|'
    ensures LastWrite(plain + iota, k) == LastWrite(plain, k)
  {
    GreekAccentIotaLookup(ui, b, k);
    LastWriteAppend(plain, iota, k);
  }

  // ---------------------------------------------------------------------
  // Greek breathing: the capital and small-letter forms

  /** The intended layout of one pass: the i-th small-letter form is written under
      the small-letter base, 8 code points below the i-th capital form. */
  predicate CaseSymmetric(w: seq<Write>, o: int, base: string, lbase: string)
    requires BreathingRange(o)
  {
    && |w| == 2 * |Forms|
    && forall i :: 0 <= i < |Forms| ==>
         && w[i] == ("=" + Forms[i].0 + base, Chr(o + Forms[i].1))
         && w[|Forms| + i] == ("=" + Forms[i].0 + lbase, Chr(o - 8 + Forms[i].1))
  }

  lemma BreathingStepSymmetric(o: int, base: string, lbase: string)
    requires BreathingRange(o)
    ensures CaseSymmetric(BreathingStep(o, base, lbase), o, base, lbase)
  {
  }

  /** As written, the last small-letter form is filed under the capital base. */
  lemma BreathingAsWrittenAsymmetric(o: int, base: string, lbase: string)
    requires BreathingRange(o) && base != lbase
    ensures !CaseSymmetric(BreathingStepAsWritten(o, base, lbase), o, base, lbase)
  {
    var w := BreathingStepAsWritten(o, base, lbase);
    assert w[2 * |Forms| - 1] == ("=)~" + base, Chr(o - 1));
    assert ("=)~" + base)[3..] == base;
    assert ("=" + Forms[13].0 + lbase)[3..] == lbase;
  }

  lemma SuffixDiffers(p: string, q: string, x: char, y: char)
    requires x != y
    ensures p + [x] != q + [y]
  {
    assert (p + [x])[|p + [x]| - 1] == x;
    assert (q + [y])[|q + [y]| - 1] == y;
  }

  /** For Ἀ (U+1F08) and base "A": as written, "=)~A" gives ἇ (U+1F07) instead of
      Ἇ (U+1F0F), and "=)~a" gets nothing. */
  lemma BreathingAsWrittenCounterexample()
    ensures LastWrite(BreathingStepAsWritten(0x1F08, "A", "a"), "=)~A") == Some("\U{1F07}")
    ensures LastWrite(BreathingStepAsWritten(0x1F08, "A", "a"), "=)~a") == None
  {
    var w := BreathingStepAsWritten(0x1F08, "A", "a");
    var low := LowerForms(0x1F08, "a");
    forall i | 0 <= i < |w| ensures w[i].0 != "=)~a" {
      if i < |Forms| {
        assert w[i].0 == ("=" + Forms[i].0) + ['A'];
        SuffixDiffers("=" + Forms[i].0, "=)~", 'A', 'a');
      } else if i < 2 * |Forms| - 1 {
        var j := i - |Forms|;
        assert w[i] == low[j];
        assert w[i].0 == "=" + Forms[j].0 + "a";
        assert Forms[j].0 != ")~";
        assert |w[i].0| != 4 || w[i].0[1..3] != ")~";
      } else {
        assert w[i].0 == ("=)~") + ['A'];
        SuffixDiffers("=)~", "=)~", 'A', 'a');
      }
    }
    LastWriteNone(w, "=)~a");
  }

  /** With the small-letter base, "=)~A" gives Ἇ (U+1F0F) and "=)~a" gives ἇ (U+1F07). */
  lemma BreathingStepTildeForms()
    ensures LastWrite(BreathingStep(0x1F08, "A", "a"), "=)~A") == Some("\U{1F0F}")
    ensures LastWrite(BreathingStep(0x1F08, "A", "a"), "=)~a") == Some("\U{1F07}")
  {
    var up := UpperForms(0x1F08, "A");
    var low := LowerForms(0x1F08, "a");
    forall i | 0 <= i < |low| ensures low[i].0 != "=)~A" {
      assert low[i].0 == ("=" + Forms[i].0) + ['a'];
      SuffixDiffers("=" + Forms[i].0, "=)~", 'a', 'A');
    }
    LastWriteNone(low, "=)~A");
    LastWriteAppend(up, low, "=)~A");
    LastWriteAppend(up, low, "=)~a");
    assert up[|up| - 1] == ("=)~A", Chr(0x1F0F));
    assert low[|low| - 1] == ("=)~a", Chr(0x1F07));
  }

  // ---------------------------------------------------------------------
  // Interpretation

  /** The hex prefixes, including none. */
  const AnyHexPrefix: seq<string> := [""] + HexPrefixes

  /** The hex form matched is a prefix and two or more hex digits. */
  lemma HexDigitsSound(s: string)
    ensures HexDigitsOf(s).Some? ==>
              var d := HexDigitsOf(s).value;
              |d| >= 2 && AllHexDigits(d) && exists p :: p in AnyHexPrefix && s == p + d
  {
    if HexDigitsOf(s).Some? {
      var d := HexDigitsOf(s).value;
      if |s| >= 2 && AllHexDigits(s) {
        assert s == "" + d;
      } else if |s| >= 4 && s[..2] in HexPrefixes && AllHexDigits(s[2..]) {
        assert s == s[..2] + d;
      } else {
        assert s == s[..1] + d;
      }
    }
  }

  /** Every prefix with two or more hex digits matches, with those digits. */
  lemma HexDigitsComplete(p: string, d: string)
    requires p in AnyHexPrefix && |d| >= 2 && AllHexDigits(d)
    ensures HexDigitsOf(p + d) == Some(d)
  {
    var s := p + d;
    if p != [] {
      assert !IsHexDigit(s[|p| - 1]);
      assert !AllHexDigits(s);
    }
    if |p| == 2 {
      assert s[..2] == p && s[2..] == d;
    } else if |p| == 1 {
      assert s[..1] == p && s[1..] == d;
      assert s[..2] == p + [d[0]];
      assert IsHexDigit(d[0]);
    } else {
      assert s == d;
    }
  }

  /** A sequence in the table is looked up, whatever else it looks like. */
  lemma LookupFirst(table: map<string, string>, s: string, force: bool)
    requires s in table
    ensures Interpret(table, s, force) == Found(table[s])
  {
  }

  /** Without force, only a table entry or exactly four hex digits match. */
  lemma UnforcedMatch(table: map<string, string>, s: string)
    ensures Interpret(table, s, false) != NoMatch <==> s in table || (|s| == 4 && AllHexDigits(s))
  {
  }

  /** Forcing never changes a match found without force. */
  lemma ForcingKeepsMatch(table: map<string, string>, s: string)
    ensures Interpret(table, s, false) != NoMatch ==> Interpret(table, s, true) == Interpret(table, s, false)
  {
  }

  /** Four hex digits give their code point unless the table has the sequence. */
  lemma FourHexRoundTrip(table: map<string, string>, n: nat, force: bool)
    requires n < 0x10000 && Hex4(n) !in table
    ensures Interpret(table, Hex4(n), force) == CodePoint(n)
  {
    Hex4RoundTrip(n);
  }

  /** A forced "U+" and the hex digits of a code point give that code point. */
  lemma PrefixedHexRoundTrip(table: map<string, string>, n: nat)
    requires n >= 16 && "U+" + HexUpper(n) !in table
    ensures Interpret(table, "U+" + HexUpper(n), true) == CodePoint(n)
  {
    HexUpperRoundTrip(n);
    HexDigitsComplete("U+", HexUpper(n));
    assert !IsHexDigit(("U+" + HexUpper(n))[0]);
  }

  /** A forced "#" and the decimal digits of a number from 10 up give that number. */
  lemma DecimalRoundTripForced(table: map<string, string>, n: nat)
    requires n >= 10 && "#" + Decimal(n) !in table
    ensures Interpret(table, "#" + Decimal(n), true) == CodePoint(n)
  {
    var s := "#" + Decimal(n);
    DecimalRoundTrip(n);
    DecimalTwoDigits(n);
    assert s[1..] == Decimal(n);
    HashNotHex(s);
  }

  /** No hex form starts with `#`. */
  lemma HashNotHex(s: string)
    requires |s| > 0 && s[0] == '#'
    ensures HexDigitsOf(s) == None
  {
    assert !IsHexDigit(s[0]);
    assert forall k :: 0 <= k < |HexPrefixes| ==> HexPrefixes[k][0] != '#';
    if |s| >= 2 {
      assert s[..2][0] == '#';
    }
    assert s[..1][0] == '#';
  }
}
