/** The user-dictionary compiler (`JMA_Knowledge::convertTxtToCSV`,
    source/src/jma_knowledge.cpp:921-1104): lines `WORD [PATTERN] [READ]` become
    MeCab rows `WORD,-1,-1,-500,<full POS>,*...,<reading>` and, for a numeric
    PATTERN, an entry of the decomposition map. */
module UserDict {
  import opened Text
  import opened StrUtil

  /** One part of a decomposed word. */
  datatype Morpheme = Morpheme(lexicon: Bytes, readForm: Bytes)

  /** The part of the POS table the compiler consults: the index of an
      alphabetical POS name and the full-category string of an index. */
  datatype PosTable = PosTable(alphaIndex: map<Bytes, nat>, fullCategory: map<nat, Bytes>)

  /** `POSTable::getIndexFromAlphaPOS`: -1 for an unknown name. */
  function GetIndexFromAlphaPOS(table: PosTable, pos: Bytes): (r: int)
    ensures r == -1 <==> pos !in table.alphaIndex
    ensures r != -1 ==> r == table.alphaIndex[pos]
  {
    if pos in table.alphaIndex then table.alphaIndex[pos] else -1
  }

  /** The user noun's full POS string and its number of comma-separated fields. */
  datatype NounPos = NounPos(full: Bytes, fieldCount: nat)

  /** The POS of user nouns, or None when the table cannot resolve the name or
      has no full-category string for its index. */
  function ResolveUserNoun(table: PosTable, userNounPOS: Bytes): (r: Option<NounPos>)
    ensures r.Some? <==> userNounPOS in table.alphaIndex && table.alphaIndex[userNounPOS] in table.fullCategory
    ensures r.Some? ==> r.value.full == table.fullCategory[table.alphaIndex[userNounPOS]]
    ensures r.Some? ==> r.value.fieldCount == |Components(r.value.full)|
  {
    var index := GetIndexFromAlphaPOS(table, userNounPOS);
    if index == -1 || index !in table.fullCategory then None
    else
      var full := table.fullCategory[index];
      Some(NounPos(full, |Components(full)|))
  }

  // ---------------------------------------------------------------------------
  // Words, tokens and characters

  /** The first index from `i` on that holds whitespace, or `|s|`. */
  function TokenEnd(s: Bytes, i: nat): (r: nat)
    requires i <= |s|
    ensures i <= r <= |s|
    ensures forall k :: i <= k < r ==> !IsSpace(s[k])
    ensures r < |s| ==> IsSpace(s[r])
    decreases |s| - i
  {
    if i == |s| || IsSpace(s[i]) then i else TokenEnd(s, i + 1)
  }

  /** A token taken from a line and the index just after it. */
  datatype Token = Token(text: Bytes, next: nat)

  /** `iss >> s` from index `i`: leading whitespace is skipped and the run of
      bytes up to the next whitespace is the token; None when only whitespace
      is left. */
  function ExtractToken(s: Bytes, i: nat): (r: Option<Token>)
    requires i <= |s|
    ensures r.Some? ==> i < r.value.next <= |s| && r.value.text != []
    ensures r.Some? ==> forall k :: 0 <= k < |r.value.text| ==> !IsSpace(r.value.text[k])
    ensures r.None? <==> forall k :: i <= k < |s| ==> IsSpace(s[k])
    ensures r.Some? ==> SkipSpaces(s, i) < r.value.next && r.value.text == s[SkipSpaces(s, i)..r.value.next]
    ensures r.Some? ==> r.value.next == |s| || IsSpace(s[r.value.next])
    ensures r.Some? ==> forall k :: i <= k < SkipSpaces(s, i) ==> IsSpace(s[k])
  {
    var b := SkipSpaces(s, i);
    if b == |s| then None
    else
      var e := TokenEnd(s, b);
      Some(Token(s[b..e], e))
  }

  /** The width the tokenizer gives the character at the front of `s`: the byte
      count of the character type in use, kept within 1..|s|. */
  function CharWidth(s: Bytes, bc: Bytes -> nat): (r: nat)
    requires s != []
    ensures 1 <= r <= |s|
  {
    var c := bc(s);
    if c < 1 then 1 else if c > |s| then |s| else c
  }

  /** The characters the tokenizer splits `word` into. */
  function Characters(word: Bytes, bc: Bytes -> nat): (r: seq<Bytes>)
    ensures forall i :: 0 <= i < |r| ==> r[i] != []
    decreases |word|
  {
    if word == [] then []
    else
      var w := CharWidth(word, bc);
      [word[..w]] + Characters(word[w..], bc)
  }

  /** The characters put together give the word back. */
  lemma {:induction false} ConcatCharacters(word: Bytes, bc: Bytes -> nat)
    ensures Concat(Characters(word, bc)) == word
    decreases |word|
  {
    if word != [] {
      var w := CharWidth(word, bc);
      var cs := Characters(word, bc);
      ConcatCharacters(word[w..], bc);
      assert cs[1..] == Characters(word[w..], bc);
      assert word == word[..w] + word[w..];
    }
  }

  // ---------------------------------------------------------------------------
  // Numeric decomposition

  predicate AllDecimal(comps: seq<Bytes>)
  {
    forall i :: 0 <= i < |comps| ==> IsDecimal(comps[i])
  }

  /** The character count a numeric pattern component stands for: its value, or
      0 when the value does not fit in an `int` (see CharCountIsConversion). */
  function CharCount(comp: Bytes): nat
    requires IsDecimal(comp)
  {
    if DigitsValue(comp) <= INT_MAX then DigitsValue(comp) else 0
  }

  /** The count is what `convertFromStr<int>` makes of the component. */
  lemma CharCountIsConversion(comp: Bytes)
    requires IsDecimal(comp)
    ensures CharCount(comp) == ConvertFromStr(comp)
  {
    ConvertDecimal(comp);
  }

  /** The sum of the character counts of the components. */
  function SumCounts(comps: seq<Bytes>): nat
    requires AllDecimal(comps)
  {
    if comps == [] then 0 else CharCount(comps[0]) + SumCounts(comps[1..])
  }

  /** The lexicons the counts in `comps` cut `chars` into, or None when a count
      is not a decimal numeral, runs past the last character, or characters are
      left over. */
  function Segments(chars: seq<Bytes>, comps: seq<Bytes>): Option<seq<Bytes>>
    decreases |comps|
  {
    if comps == [] then (if chars == [] then Some([]) else None)
    else if !IsDecimal(comps[0]) then None
    else
      var n := CharCount(comps[0]);
      if n > |chars| then None
      else match Segments(chars[n..], comps[1..])
        case None => None
        case Some(rest) => Some([Concat(chars[..n])] + rest)
  }

  /** The decomposition succeeds exactly when every component is numeric and the
      counts add up to the number of characters. */
  lemma {:induction false} SegmentsSucceedIff(chars: seq<Bytes>, comps: seq<Bytes>)
    ensures Segments(chars, comps).Some? <==> AllDecimal(comps) && SumCounts(comps) == |chars|
    decreases |comps|
  {
    if comps != [] {
      assert AllDecimal(comps) <==> IsDecimal(comps[0]) && AllDecimal(comps[1..]) by {
        if IsDecimal(comps[0]) && AllDecimal(comps[1..]) {
          forall i | 0 <= i < |comps| ensures IsDecimal(comps[i]) {
            if i > 0 {
              assert comps[i] == comps[1..][i - 1];
            }
          }
        }
      }
      if IsDecimal(comps[0]) {
        var n := CharCount(comps[0]);
        if n <= |chars| {
          SegmentsSucceedIff(chars[n..], comps[1..]);
        } else if AllDecimal(comps) {
          SumCountsAtLeastFirst(comps);
        }
      }
    }
  }

  /** Segment `i` of a successful decomposition is the next `CharCount(comps[i])`
      characters after those the earlier components took. */
  lemma {:induction false} SegmentAt(chars: seq<Bytes>, comps: seq<Bytes>, i: nat)
    requires Segments(chars, comps).Some? && i < |comps|
    ensures AllDecimal(comps[..i]) && IsDecimal(comps[i])
    ensures SumCounts(comps[..i]) + CharCount(comps[i]) <= |chars|
    ensures |Segments(chars, comps).value| == |comps|
    ensures Segments(chars, comps).value[i]
      == Concat(chars[SumCounts(comps[..i])..SumCounts(comps[..i]) + CharCount(comps[i])])
    decreases i
  {
    SegmentsShape(chars, comps);
    if i == 0 {
      assert comps[..0] == [];
    } else {
      SegmentsSucceedIff(chars, comps);
      var n := CharCount(comps[0]);
      var rest := Segments(chars[n..], comps[1..]).value;
      assert Segments(chars, comps).value == [Concat(chars[..n])] + rest;
      SegmentAt(chars[n..], comps[1..], i - 1);
      SegmentAtNext(chars, comps, i, Segments(chars, comps).value, rest);
    }
  }

  /** The step of SegmentAt: segment `i` is segment `i - 1` of the rest. */
  lemma SegmentAtNext(chars: seq<Bytes>, comps: seq<Bytes>, i: nat, lex: seq<Bytes>, rest: seq<Bytes>)
    requires 0 < i < |comps| && AllDecimal(comps) && CharCount(comps[0]) <= |chars|
    requires lex == [Concat(chars[..CharCount(comps[0])])] + rest && |rest| == |comps| - 1
    requires var n := CharCount(comps[0]);
      var tail := comps[1..];
      && AllDecimal(tail[..i - 1]) && IsDecimal(tail[i - 1])
      && SumCounts(tail[..i - 1]) + CharCount(tail[i - 1]) <= |chars[n..]|
      && rest[i - 1] == Concat(chars[n..][SumCounts(tail[..i - 1])..SumCounts(tail[..i - 1]) + CharCount(tail[i - 1])])
    ensures AllDecimal(comps[..i]) && IsDecimal(comps[i])
    ensures SumCounts(comps[..i]) + CharCount(comps[i]) <= |chars|
    ensures lex[i] == Concat(chars[SumCounts(comps[..i])..SumCounts(comps[..i]) + CharCount(comps[i])])
  {
    var n := CharCount(comps[0]);
    assert comps[1..][i - 1] == comps[i];
    SumCountsPrefix(comps, i);
    var s := SumCounts(comps[1..][..i - 1]);
    SliceOfDrop(chars, n, s, s + CharCount(comps[i]));
  }

  /** The counts of the first `i` components are the first count plus those of
      the next `i - 1`. */
  lemma SumCountsPrefix(comps: seq<Bytes>, i: nat)
    requires 0 < i <= |comps| && AllDecimal(comps)
    ensures AllDecimal(comps[..i]) && AllDecimal(comps[1..][..i - 1])
    ensures SumCounts(comps[..i]) == CharCount(comps[0]) + SumCounts(comps[1..][..i - 1])
  {
    assert comps[..i][1..] == comps[1..][..i - 1];
  }

  /** `lex` cuts `chars` as the counts in `comps` say: lexicon `i` is the next
      `CharCount(comps[i])` characters after those the earlier components took. */
  predicate CutBy(lex: seq<Bytes>, chars: seq<Bytes>, comps: seq<Bytes>)
  {
    && |lex| == |comps| && AllDecimal(comps)
    && forall i :: 0 <= i < |comps| ==>
         && AllDecimal(comps[..i])
         && SumCounts(comps[..i]) + CharCount(comps[i]) <= |chars|
         && lex[i] == Concat(chars[SumCounts(comps[..i])..SumCounts(comps[..i]) + CharCount(comps[i])])
  }

  /** A successful decomposition cuts the characters as its counts say. */
  lemma SegmentsCut(chars: seq<Bytes>, comps: seq<Bytes>)
    requires Segments(chars, comps).Some?
    ensures CutBy(Segments(chars, comps).value, chars, comps)
  {
    SegmentsSucceedIff(chars, comps);
    SegmentsShape(chars, comps);
    forall i | 0 <= i < |comps|
      ensures AllDecimal(comps[..i])
      ensures SumCounts(comps[..i]) + CharCount(comps[i]) <= |chars|
      ensures Segments(chars, comps).value[i]
        == Concat(chars[SumCounts(comps[..i])..SumCounts(comps[..i]) + CharCount(comps[i])])
    {
      SegmentAt(chars, comps, i);
    }
  }

  lemma SumCountsAtLeastFirst(comps: seq<Bytes>)
    requires comps != [] && AllDecimal(comps)
    ensures SumCounts(comps) >= CharCount(comps[0])
  {
  }

  /** A successful decomposition has one lexicon per component, and the
      lexicons put together are the characters put together. */
  lemma {:induction false} SegmentsShape(chars: seq<Bytes>, comps: seq<Bytes>)
    requires Segments(chars, comps).Some?
    ensures |Segments(chars, comps).value| == |comps|
    ensures Concat(Segments(chars, comps).value) == Concat(chars)
    decreases |comps|
  {
    if comps != [] {
      var n := CharCount(comps[0]);
      var rest := Segments(chars[n..], comps[1..]).value;
      SegmentsShape(chars[n..], comps[1..]);
      var lex := Segments(chars, comps).value;
      assert lex == [Concat(chars[..n])] + rest;
      assert lex[1..] == rest;
      assert chars == chars[..n] + chars[n..];
      ConcatSplit(chars, n);
    }
  }

  /** The morphemes of a decomposition without READ field. */
  function LexiconsOnly(lex: seq<Bytes>): (r: seq<Morpheme>)
    ensures |r| == |lex|
    ensures forall i :: 0 <= i < |r| ==> r[i] == Morpheme(lex[i], [])
  {
    seq(|lex|, i requires 0 <= i < |lex| => Morpheme(lex[i], []))
  }

  /** The morphemes of a decomposition whose READ components are assigned in order. */
  function WithReadForms(lex: seq<Bytes>, readings: seq<Bytes>): (r: seq<Morpheme>)
    requires |readings| == |lex|
    ensures |r| == |lex|
    ensures forall i :: 0 <= i < |r| ==> r[i] == Morpheme(lex[i], readings[i])
  {
    seq(|lex|, i requires 0 <= i < |lex| => Morpheme(lex[i], readings[i]))
  }

  function Lexicons(ms: seq<Morpheme>): (r: seq<Bytes>)
    ensures |r| == |ms|
    ensures forall i :: 0 <= i < |r| ==> r[i] == ms[i].lexicon
  {
    seq(|ms|, i requires 0 <= i < |ms| => ms[i].lexicon)
  }

  // ---------------------------------------------------------------------------
  // One line

  /** What a line of the user dictionary contributes: nothing, an unterminated
      fragment of a row, or a whole row and perhaps a decomposition entry. */
  datatype DecompEntry = DecompEntry(word: Bytes, morphemes: seq<Morpheme>)
  datatype LineOutcome = Skipped | Rejected(fragment: Bytes) | Accepted(row: Bytes, entry: Option<DecompEntry>)

  /** The verdict on the fields after the word: rejected, or accepted with the
      reading field of the row and perhaps a decomposition entry. */
  datatype Verdict = Reject | Accept(reading: Bytes, entry: Option<DecompEntry>)

  /** The start of every row: the word, the costs `-1,-1,-500`, the full POS and
      one `,*` per feature missing up to the reading offset. */
  function RowPrefix(word: Bytes, noun: NounPos, readFormOffset: int): Bytes
  {
    word + CONTEXT_IDS + USER_NOUN_COST + FIELD_SEPARATOR + noun.full + Repeat(EMPTY_FIELD, readFormOffset - noun.fieldCount)
  }

  /** The context ids of a user noun, both -1. */
  const CONTEXT_IDS: Bytes := ",-1,-1,"
  /** `USER_NOUN_COST` as written into the row. */
  const USER_NOUN_COST: Bytes := "-500"
  const FIELD_SEPARATOR: Bytes := ","
  const LINE_END: Bytes := "\n"
  /** A feature field without a value. */
  const EMPTY_FIELD: Bytes := ",*"
  /** The reading written when there is none. */
  const NO_READING: Bytes := "*"

  /** One line of `convertTxtToCSV`. The line is cut at its first carriage
      return; empty, `;` and `#` lines and lines without a word are skipped.
      The row prefix is written as soon as the word is read, so a line rejected
      later leaves it behind without a line end. */
  function ConvertLine(raw: Bytes, noun: NounPos, readFormOffset: int, bc: Bytes -> nat): LineOutcome
  {
    var line := CutAtCR(raw);
    if line == [] || line[0] == ';' || line[0] == '#' then Skipped
    else match ExtractToken(line, 0)
      case None => Skipped
      case Some(word) =>
        var prefix := RowPrefix(word.text, noun, readFormOffset);
        match AfterWord(line, word, bc)
        case Reject => Rejected(prefix)
        case Accept(reading, entry) => Accepted(prefix + FIELD_SEPARATOR + reading + LINE_END, entry)
  }

  /** The fields after the word: no PATTERN gives the reading `*`; a PATTERN
      whose first component is not numeric is itself the reading; a numeric one
      must decompose the word. */
  function AfterWord(line: Bytes, word: Token, bc: Bytes -> nat): Verdict
    requires word.next <= |line|
  {
    match ExtractToken(line, word.next)
    case None => Accept(NO_READING, None)
    case Some(pattern) =>
      var comps := Components(pattern.text);
      if comps == [] then Reject
      else if !IsDecimal(comps[0]) then Accept(Concat(comps), None)
      else match Segments(Characters(word.text, bc), comps)
        case None => Reject
        case Some(lex) => AfterPattern(line, word.text, pattern.next, lex)
  }

  /** The field after a numeric PATTERN that decomposed the word into `lex`: no
      READ gives the reading `*`; a READ must have one component per lexicon. */
  function AfterPattern(line: Bytes, word: Bytes, i: nat, lex: seq<Bytes>): Verdict
    requires i <= |line|
  {
    match ExtractToken(line, i)
    case None => Accept(NO_READING, Some(DecompEntry(word, LexiconsOnly(lex))))
    case Some(read) =>
      var readings := Components(read.text);
      if readings == [] || |readings| != |lex| then Reject
      else Accept(Concat(readings), Some(DecompEntry(word, WithReadForms(lex, readings))))
  }

  /** The stream, the count of accepted lines and the decomposition map while
      the lines are converted. */
  datatype Conversion = Conversion(text: Bytes, count: nat, decomp: map<Bytes, seq<Morpheme>>)

  function ApplyOutcome(c: Conversion, o: LineOutcome): Conversion
  {
    match o
    case Skipped => c
    case Rejected(fragment) => c.(text := c.text + fragment)
    case Accepted(row, entry) =>
      var decomp := match entry case None => c.decomp case Some(e) => c.decomp[e.word := e.morphemes];
      Conversion(c.text + row, c.count + 1, decomp)
  }

  /** The outcomes applied in order. */
  function ApplyAll(c: Conversion, outs: seq<LineOutcome>): Conversion
    decreases |outs|
  {
    if outs == [] then c else ApplyAll(ApplyOutcome(c, outs[0]), outs[1..])
  }

  /** The outcome of every line, each converted on its own by `conv`. */
  function Outcomes(lines: seq<Bytes>, conv: Bytes -> LineOutcome): (r: seq<LineOutcome>)
    ensures |r| == |lines|
    ensures forall i :: 0 <= i < |lines| ==> r[i] == conv(lines[i])
  {
    seq(|lines|, i requires 0 <= i < |lines| => conv(lines[i]))
  }

  /** The line conversion for one user noun POS, reading offset and byte counter. */
  function Converter(noun: NounPos, readFormOffset: int, bc: Bytes -> nat): Bytes -> LineOutcome
  {
    line => ConvertLine(line, noun, readFormOffset, bc)
  }

  /** The lines converted in order. */
  function ConvertLines(lines: seq<Bytes>, noun: NounPos, readFormOffset: int, bc: Bytes -> nat, c: Conversion): Conversion
  {
    ApplyAll(c, Outcomes(lines, Converter(noun, readFormOffset, bc)))
  }

  /** One user-dictionary file: nothing happens when the user noun's POS cannot
      be resolved or the file cannot be opened (it is not in `fs`). */
  function ConvertFile(fs: map<Bytes, seq<Bytes>>, name: Bytes, noun: Option<NounPos>,
                       readFormOffset: int, bc: Bytes -> nat, c: Conversion): Conversion
  {
    if noun.None? || name !in fs then c
    else ConvertLines(fs[name], noun.value, readFormOffset, bc, c)
  }

  /** The files converted in order into one stream, one count and one map. */
  function ConvertFiles(fs: map<Bytes, seq<Bytes>>, names: seq<Bytes>, noun: Option<NounPos>,
                        readFormOffset: int, bc: Bytes -> nat, c: Conversion): Conversion
    decreases |names|
  {
    if names == [] then c
    else ConvertFiles(fs, names[1..], noun, readFormOffset, bc, ConvertFile(fs, names[0], noun, readFormOffset, bc, c))
  }

  // ---------------------------------------------------------------------------
  // Properties of one line

  /** The tokens of a line with a word and a numeric first pattern component. */
  predicate NumericLine(raw: Bytes)
  {
    var line := CutAtCR(raw);
    line != [] && line[0] != ';' && line[0] != '#'
    && ExtractToken(line, 0).Some?
    && ExtractToken(line, ExtractToken(line, 0).value.next).Some?
    && var comps := Components(ExtractToken(line, ExtractToken(line, 0).value.next).value.text);
       comps != [] && IsDecimal(comps[0])
  }

  /** A numeric pattern is accepted exactly when every component is numeric,
      the counts add up to the characters of the word, and a READ field, if any,
      has as many components as the pattern. The entry then splits the word into
      one morpheme per component, with the READ components assigned in order, and
      the reading is the READ components put together, or `*` without READ. */
  lemma NumericPatternVerdict(line: Bytes, word: Token, bc: Bytes -> nat)
    requires word.next <= |line| && ExtractToken(line, word.next).Some?
    requires var comps := Components(ExtractToken(line, word.next).value.text);
      comps != [] && IsDecimal(comps[0])
    ensures var pattern := ExtractToken(line, word.next).value;
      var comps := Components(pattern.text);
      var read := ExtractToken(line, pattern.next);
      var chars := Characters(word.text, bc);
      var v := AfterWord(line, word, bc);
      && (v.Accept? <==>
           AllDecimal(comps) && SumCounts(comps) == |Characters(word.text, bc)|
           && (read.Some? ==> |Components(read.value.text)| == |comps|))
      && (v.Accept? ==>
           && v.entry.Some? && v.entry.value.word == word.text
           && |v.entry.value.morphemes| == |comps|
           && Concat(Lexicons(v.entry.value.morphemes)) == word.text
           && CutBy(Lexicons(v.entry.value.morphemes), chars, comps)
           && (read.None? ==>
                 && v.reading == NO_READING
                 && forall i :: 0 <= i < |comps| ==> v.entry.value.morphemes[i].readForm == [])
           && (read.Some? ==>
                 && v.reading == Concat(Components(read.value.text))
                 && forall i :: 0 <= i < |comps| ==>
                      v.entry.value.morphemes[i].readForm == Components(read.value.text)[i]))
  {
    var pattern := ExtractToken(line, word.next).value;
    var comps := Components(pattern.text);
    var chars := Characters(word.text, bc);
    SegmentsSucceedIff(chars, comps);
    var read := ExtractToken(line, pattern.next);
    if Segments(chars, comps).Some? {
      var lex := Segments(chars, comps).value;
      SegmentsShape(chars, comps);
      ConcatCharacters(word.text, bc);
      SegmentsCut(chars, comps);
      if read.None? {
        assert Lexicons(LexiconsOnly(lex)) == lex;
      } else {
        var readings := Components(read.value.text);
        ComponentsNonEmpty(read.value.text);
        if |readings| == |lex| {
          assert Lexicons(WithReadForms(lex, readings)) == lex;
        }
      }
    }
  }

  /** A line whose word is followed by a numeric pattern is accepted exactly when
      every component is numeric, the counts add up to the characters of the
      word and a READ field, if any, has as many components as the pattern. An
      accepted line writes the row prefix, the READ components put together (or
      `*`) and a line end, and records the word cut into one morpheme per
      component; a rejected line leaves only the row prefix behind. */
  lemma NumericLineOutcome(raw: Bytes, noun: NounPos, readFormOffset: int, bc: Bytes -> nat)
    requires NumericLine(raw)
    ensures var line := CutAtCR(raw);
      var word := ExtractToken(line, 0).value;
      var pattern := ExtractToken(line, word.next).value;
      var comps := Components(pattern.text);
      var read := ExtractToken(line, pattern.next);
      var chars := Characters(word.text, bc);
      var o := ConvertLine(raw, noun, readFormOffset, bc);
      var prefix := RowPrefix(word.text, noun, readFormOffset);
      && !o.Skipped?
      && (o.Accepted? <==>
           AllDecimal(comps) && SumCounts(comps) == |chars|
           && (read.Some? ==> |Components(read.value.text)| == |comps|))
      && (o.Rejected? ==> o.fragment == prefix)
      && (o.Accepted? ==>
           && o.row == prefix + FIELD_SEPARATOR
                + (if read.None? then NO_READING else Concat(Components(read.value.text))) + LINE_END
           && o.entry.Some? && o.entry.value.word == word.text
           && |o.entry.value.morphemes| == |comps|
           && CutBy(Lexicons(o.entry.value.morphemes), chars, comps)
           && (forall i :: 0 <= i < |comps| ==>
                 o.entry.value.morphemes[i].readForm == (if read.None? then [] else Components(read.value.text)[i])))
  {
    var line := CutAtCR(raw);
    var word := ExtractToken(line, 0).value;
    NumericPatternVerdict(line, word, bc);
  }

  lemma ComponentsNonEmpty(s: Bytes)
    requires s != []
    ensures Components(s) != []
  {
  }

  /** When the first pattern component is not numeric the line is accepted with
      the pattern's components put together as its reading, and no entry. */
  lemma NonNumericPatternIsReading(raw: Bytes, noun: NounPos, readFormOffset: int, bc: Bytes -> nat)
    requires var line := CutAtCR(raw);
      line != [] && line[0] != ';' && line[0] != '#'
      && ExtractToken(line, 0).Some? && ExtractToken(line, ExtractToken(line, 0).value.next).Some?
      && !IsDecimal(Components(ExtractToken(line, ExtractToken(line, 0).value.next).value.text)[0])
    ensures var line := CutAtCR(raw);
      var word := ExtractToken(line, 0).value;
      var pattern := ExtractToken(line, word.next).value;
      ConvertLine(raw, noun, readFormOffset, bc) ==
        Accepted(RowPrefix(word.text, noun, readFormOffset) + FIELD_SEPARATOR + Concat(Components(pattern.text)) + LINE_END, None)
  {
    var line := CutAtCR(raw);
    var pattern := ExtractToken(line, ExtractToken(line, 0).value.next).value;
    ComponentsNonEmpty(pattern.text);
  }

  // ---------------------------------------------------------------------------
  // Properties of the conversion of many lines

  lemma {:induction false} ApplyAllAppend(a: seq<LineOutcome>, b: seq<LineOutcome>, c: Conversion)
    ensures ApplyAll(c, a + b) == ApplyAll(ApplyAll(c, a), b)
    decreases |a|
  {
    if a == [] {
      assert a + b == b;
    } else {
      assert (a + b)[0] == a[0];
      assert (a + b)[1..] == a[1..] + b;
      ApplyAllAppend(a[1..], b, ApplyOutcome(c, a[0]));
    }
  }

  lemma OutcomesAppend(a: seq<Bytes>, b: seq<Bytes>, conv: Bytes -> LineOutcome)
    ensures Outcomes(a + b, conv) == Outcomes(a, conv) + Outcomes(b, conv)
  {
    var l, r := Outcomes(a + b, conv), Outcomes(a, conv) + Outcomes(b, conv);
    forall i | 0 <= i < |a + b|
      ensures l[i] == r[i]
    {
      if i < |a| {
        assert (a + b)[i] == a[i];
      } else {
        assert (a + b)[i] == b[i - |a|];
      }
    }
  }

  /** Converting two runs of lines one after the other is converting them joined. */
  lemma ConvertLinesAppend(a: seq<Bytes>, b: seq<Bytes>, noun: NounPos, readFormOffset: int,
                           bc: Bytes -> nat, c: Conversion)
    ensures ConvertLines(a + b, noun, readFormOffset, bc, c) ==
      ConvertLines(b, noun, readFormOffset, bc, ConvertLines(a, noun, readFormOffset, bc, c))
  {
    var conv := Converter(noun, readFormOffset, bc);
    OutcomesAppend(a, b, conv);
    ApplyAllAppend(Outcomes(a, conv), Outcomes(b, conv), c);
  }

  /** One more line applies its outcome to the conversion so far. */
  lemma ConvertLinesSnoc(a: seq<Bytes>, line: Bytes, noun: NounPos, readFormOffset: int,
                         bc: Bytes -> nat, c: Conversion)
    ensures ConvertLines(a + [line], noun, readFormOffset, bc, c) ==
      ApplyOutcome(ConvertLines(a, noun, readFormOffset, bc, c), ConvertLine(line, noun, readFormOffset, bc))
  {
    var o := ConvertLine(line, noun, readFormOffset, bc);
    ConvertLinesAppend(a, [line], noun, readFormOffset, bc, c);
    var before := ConvertLines(a, noun, readFormOffset, bc, c);
    var outs := Outcomes([line], Converter(noun, readFormOffset, bc));
    assert outs == [o];
    assert ApplyAll(before, outs) == ApplyAll(ApplyOutcome(before, o), []);
  }

  /** The effect of one more line: a skipped line changes nothing, a rejected one
      only appends its fragment, an accepted one appends its row, adds one to the
      count and sets the map entry of its word, overwriting an earlier one. */
  lemma ConvertOneMoreLine(a: seq<Bytes>, line: Bytes, noun: NounPos, readFormOffset: int,
                           bc: Bytes -> nat, c: Conversion)
    ensures var before := ConvertLines(a, noun, readFormOffset, bc, c);
      var after := ConvertLines(a + [line], noun, readFormOffset, bc, c);
      var o := ConvertLine(line, noun, readFormOffset, bc);
      && (o.Skipped? ==> after == before)
      && (o.Rejected? ==> after == Conversion(before.text + o.fragment, before.count, before.decomp))
      && (o.Accepted? ==>
           && after.text == before.text + o.row && after.count == before.count + 1
           && (o.entry.None? ==> after.decomp == before.decomp)
           && (o.entry.Some? ==> after.decomp == before.decomp[o.entry.value.word := o.entry.value.morphemes]))
  {
    ConvertLinesSnoc(a, line, noun, readFormOffset, bc, c);
  }

  /** An outcome's effect on the line ends: a fragment without any and a row
      with exactly one. */
  predicate NewlineShape(o: LineOutcome)
  {
    && (o.Rejected? ==> Occurrences(o.fragment, '\n') == 0)
    && (o.Accepted? ==> Occurrences(o.row, '\n') == 1)
  }

  lemma {:induction false} ApplyAllNewlines(outs: seq<LineOutcome>, c: Conversion)
    requires forall i :: 0 <= i < |outs| ==> NewlineShape(outs[i])
    ensures var r := ApplyAll(c, outs);
      r.count >= c.count && Occurrences(r.text, '\n') == Occurrences(c.text, '\n') + (r.count - c.count)
    decreases |outs|
  {
    if outs != [] {
      var o := outs[0];
      assert NewlineShape(o);
      match o {
        case Skipped =>
        case Rejected(fragment) =>
          OccurrencesAppend(c.text, fragment, '\n');
        case Accepted(row, _) =>
          OccurrencesAppend(c.text, row, '\n');
      }
      ApplyAllNewlines(outs[1..], ApplyOutcome(c, o));
    }
  }

  /** The count only grows, and it grows by exactly the number of line ends
      written, provided the POS string holds no line end. */
  lemma NewlinePerAcceptedLine(lines: seq<Bytes>, noun: NounPos, readFormOffset: int,
                               bc: Bytes -> nat, c: Conversion)
    requires '\n' !in noun.full
    ensures var r := ConvertLines(lines, noun, readFormOffset, bc, c);
      r.count >= c.count && Occurrences(r.text, '\n') == Occurrences(c.text, '\n') + (r.count - c.count)
  {
    var outs := Outcomes(lines, Converter(noun, readFormOffset, bc));
    forall i | 0 <= i < |outs|
      ensures NewlineShape(outs[i])
    {
      OutcomeNewlines(lines[i], noun, readFormOffset, bc);
    }
    ApplyAllNewlines(outs, c);
  }

  /** A rejected line's fragment holds no line end and an accepted line's row
      holds exactly one, at its end. */
  lemma OutcomeNewlines(raw: Bytes, noun: NounPos, readFormOffset: int, bc: Bytes -> nat)
    requires '\n' !in noun.full
    ensures var o := ConvertLine(raw, noun, readFormOffset, bc);
      && (o.Rejected? ==> Occurrences(o.fragment, '\n') == 0)
      && (o.Accepted? ==> Occurrences(o.row, '\n') == 1 && o.row[|o.row| - 1] == '\n')
  {
    var line := CutAtCR(raw);
    if !(line == [] || line[0] == ';' || line[0] == '#') && ExtractToken(line, 0).Some? {
      var word := ExtractToken(line, 0).value;
      var prefix := RowPrefix(word.text, noun, readFormOffset);
      assert '\n' !in word.text;
      RowPrefixHasNoNewline(word.text, noun, readFormOffset);
      OccurrencesAbsent(prefix, '\n');
      var v := AfterWord(line, word, bc);
      if v.Accept? {
        ReadingHasNoNewline(line, word, bc);
        RowNewlines(prefix, v.reading);
      }
    }
  }


  lemma RowPrefixHasNoNewline(word: Bytes, noun: NounPos, readFormOffset: int)
    requires '\n' !in noun.full && '\n' !in word
    ensures '\n' !in RowPrefix(word, noun, readFormOffset)
  {
    RepeatAbsent(EMPTY_FIELD, readFormOffset - noun.fieldCount, '\n');
  }

  lemma RowNewlines(prefix: Bytes, reading: Bytes)
    requires '\n' !in prefix && '\n' !in reading
    ensures var row := prefix + FIELD_SEPARATOR + reading + LINE_END;
      Occurrences(row, '\n') == 1 && row[|row| - 1] == '\n'
  {
    var row := prefix + FIELD_SEPARATOR + reading + LINE_END;
    assert row[|row| - 1] == '\n';
    var tail := FIELD_SEPARATOR + reading;
    OccurrencesAbsent(prefix, '\n');
    OccurrencesAbsent(tail, '\n');
    OccurrencesAppend(prefix, tail, '\n');
    OccurrencesAppend(prefix + tail, LINE_END, '\n');
    assert Occurrences(LINE_END, '\n') == 1;
    assert prefix + FIELD_SEPARATOR + reading + LINE_END == prefix + tail + LINE_END;
  }

  /** The reading field holds no line end: it is made of whitespace-free tokens. */
  lemma ReadingHasNoNewline(line: Bytes, word: Token, bc: Bytes -> nat)
    requires word.next <= |line|
    ensures var v := AfterWord(line, word, bc); v.Accept? ==> '\n' !in v.reading
  {
    match ExtractToken(line, word.next) {
      case None =>
      case Some(pattern) =>
        var comps := Components(pattern.text);
        ComponentsAbsent(pattern.text, '\n');
        ConcatAbsent(comps, '\n');
        if comps != [] && IsDecimal(comps[0]) && Segments(Characters(word.text, bc), comps).Some? {
          if ExtractToken(line, pattern.next).Some? {
            var read := ExtractToken(line, pattern.next).value;
            ComponentsAbsent(read.text, '\n');
            ConcatAbsent(Components(read.text), '\n');
          }
        }
    }
  }

  /** Splitting a string that lacks a byte at commas gives parts that lack it. */
  lemma {:induction false} ComponentsAbsent(s: Bytes, c: Byte)
    requires c !in s
    ensures forall i :: 0 <= i < |Components(s)| ==> c !in Components(s)[i]
    decreases |s|
  {
    if s != [] {
      match FindFirst(s, ',') {
        case None =>
        case Some(j) =>
          ComponentsAbsent(s[j + 1..], c);
      }
    }
  }

  lemma {:induction false} ApplyAllNoAccepted(outs: seq<LineOutcome>, c: Conversion)
    ensures ApplyAll(c, outs).count >= c.count
    ensures ApplyAll(c, outs).count == c.count ==> ApplyAll(c, outs).decomp == c.decomp
    decreases |outs|
  {
    if outs != [] {
      ApplyAllNoAccepted(outs[1..], ApplyOutcome(c, outs[0]));
    }
  }

  /** The count stays where it was only when no line was accepted, and then the
      map is unchanged too. */
  lemma NoAcceptedLineNoEntry(lines: seq<Bytes>, noun: NounPos, readFormOffset: int,
                              bc: Bytes -> nat, c: Conversion)
    ensures ConvertLines(lines, noun, readFormOffset, bc, c).count >= c.count
    ensures ConvertLines(lines, noun, readFormOffset, bc, c).count == c.count ==>
      ConvertLines(lines, noun, readFormOffset, bc, c).decomp == c.decomp
  {
    ApplyAllNoAccepted(Outcomes(lines, Converter(noun, readFormOffset, bc)), c);
  }

  lemma {:induction false} ApplyAllSkipped(outs: seq<LineOutcome>, c: Conversion)
    requires forall i :: 0 <= i < |outs| ==> outs[i].Skipped?
    ensures ApplyAll(c, outs) == c
    decreases |outs|
  {
    if outs != [] {
      assert outs[0].Skipped?;
      ApplyAllSkipped(outs[1..], c);
    }
  }

  /** A file of nothing but empty and comment lines converts to nothing. */
  lemma CommentLinesGiveNothing(lines: seq<Bytes>, noun: NounPos, readFormOffset: int,
                                bc: Bytes -> nat, c: Conversion)
    requires forall i :: 0 <= i < |lines| ==>
      var line := CutAtCR(lines[i]); line == [] || line[0] == ';' || line[0] == '#'
    ensures ConvertLines(lines, noun, readFormOffset, bc, c) == c
  {
    var outs := Outcomes(lines, Converter(noun, readFormOffset, bc));
    forall i | 0 <= i < |outs|
      ensures outs[i].Skipped?
    {
      var line := CutAtCR(lines[i]);
      assert line == [] || line[0] == ';' || line[0] == '#';
    }
    ApplyAllSkipped(outs, c);
  }

  lemma {:induction false} ApplyAllCountShift(outs: seq<LineOutcome>, text: Bytes, k: nat, decomp: map<Bytes, seq<Morpheme>>)
    ensures var r := ApplyAll(Conversion(text, 0, decomp), outs);
      ApplyAll(Conversion(text, k, decomp), outs) == Conversion(r.text, k + r.count, r.decomp)
    decreases |outs|
  {
    if outs != [] {
      var c0 := ApplyOutcome(Conversion(text, 0, decomp), outs[0]);
      ApplyOutcomeCountShift(text, k, decomp, outs[0]);
      ApplyAllCountShift(outs[1..], c0.text, k + c0.count, c0.decomp);
      ApplyAllCountShift(outs[1..], c0.text, c0.count, c0.decomp);
    }
  }

  /** The count is carried along: starting from a count `k` ends `k` above
      starting from 0, with the same stream and map. */
  lemma ConvertLinesCountShift(lines: seq<Bytes>, noun: NounPos, readFormOffset: int,
                               bc: Bytes -> nat, text: Bytes, k: nat, decomp: map<Bytes, seq<Morpheme>>)
    ensures var r := ConvertLines(lines, noun, readFormOffset, bc, Conversion(text, 0, decomp));
      ConvertLines(lines, noun, readFormOffset, bc, Conversion(text, k, decomp)) == Conversion(r.text, k + r.count, r.decomp)
  {
    ApplyAllCountShift(Outcomes(lines, Converter(noun, readFormOffset, bc)), text, k, decomp);
  }

  lemma ApplyOutcomeCountShift(text: Bytes, k: nat, decomp: map<Bytes, seq<Morpheme>>, o: LineOutcome)
    ensures var r := ApplyOutcome(Conversion(text, 0, decomp), o);
      ApplyOutcome(Conversion(text, k, decomp), o) == Conversion(r.text, k + r.count, r.decomp)
  {
  }

  /** One more file after a run of files. */
  lemma {:induction false} ConvertFilesAppend(fs: map<Bytes, seq<Bytes>>, names: seq<Bytes>, name: Bytes, noun: Option<NounPos>,
                                              readFormOffset: int, bc: Bytes -> nat, c: Conversion)
    ensures ConvertFiles(fs, names + [name], noun, readFormOffset, bc, c) ==
      ConvertFile(fs, name, noun, readFormOffset, bc, ConvertFiles(fs, names, noun, readFormOffset, bc, c))
    decreases |names|
  {
    if names == [] {
      assert names + [name] == [name];
    } else {
      assert (names + [name])[0] == names[0];
      assert (names + [name])[1..] == names[1..] + [name];
      ConvertFilesAppend(fs, names[1..], name, noun, readFormOffset, bc, ConvertFile(fs, names[0], noun, readFormOffset, bc, c));
    }
  }

  /** A file converted with its own count, as `convertTxtToCSV` does, adds that
      count to the running total. */
  lemma ConvertFileCountShift(fs: map<Bytes, seq<Bytes>>, name: Bytes, noun: Option<NounPos>, readFormOffset: int,
                              bc: Bytes -> nat, text: Bytes, k: nat, decomp: map<Bytes, seq<Morpheme>>)
    ensures var r := ConvertFile(fs, name, noun, readFormOffset, bc, Conversion(text, 0, decomp));
      ConvertFile(fs, name, noun, readFormOffset, bc, Conversion(text, k, decomp)) == Conversion(r.text, k + r.count, r.decomp)
  {
    if noun.Some? && name in fs {
      ConvertLinesCountShift(fs[name], noun.value, readFormOffset, bc, text, k, decomp);
    }
  }

  /** When the user noun's POS cannot be resolved no file contributes anything. */
  lemma {:induction false} UnresolvedNounGivesNothing(fs: map<Bytes, seq<Bytes>>, names: seq<Bytes>,
                                                      readFormOffset: int, bc: Bytes -> nat, c: Conversion)
    ensures ConvertFiles(fs, names, None, readFormOffset, bc, c) == c
    decreases |names|
  {
    if names != [] {
      UnresolvedNounGivesNothing(fs, names[1..], readFormOffset, bc, c);
    }
  }

  /** Across files too the count only grows, and while it stays the map is unchanged. */
  lemma {:induction false} NoAcceptedFileLineNoEntry(fs: map<Bytes, seq<Bytes>>, names: seq<Bytes>, noun: Option<NounPos>,
                                                     readFormOffset: int, bc: Bytes -> nat, c: Conversion)
    ensures ConvertFiles(fs, names, noun, readFormOffset, bc, c).count >= c.count
    ensures ConvertFiles(fs, names, noun, readFormOffset, bc, c).count == c.count ==>
      ConvertFiles(fs, names, noun, readFormOffset, bc, c).decomp == c.decomp
    decreases |names|
  {
    if names != [] {
      var next := ConvertFile(fs, names[0], noun, readFormOffset, bc, c);
      if noun.Some? && names[0] in fs {
        NoAcceptedLineNoEntry(fs[names[0]], noun.value, readFormOffset, bc, c);
      }
      NoAcceptedFileLineNoEntry(fs, names[1..], noun, readFormOffset, bc, next);
    }
  }

  /** Three characters cut 1 + 2 are accepted; cut 1 + 1 one is left over. */
  lemma SegmentsExamples()
    ensures Segments(["a", "b", "c"], ["1", "2"]) == Some(["a", "bc"])
    ensures Segments(["a", "b", "c"], ["1", "1"]) == None
    ensures Segments(["a", "b", "c"], ["1", "x"]) == None
  {
    assert DigitsValue("1") == 1 && DigitsValue("2") == 2;
    var abc: seq<Bytes> := ["a", "b", "c"];
    var bc: seq<Bytes> := ["b", "c"];
    assert abc[1..] == bc && abc[..1] == ["a"];
    assert bc[2..] == [] && bc[..2] == bc && bc[1..] == ["c"];
    assert Concat(["a"]) == "a" && Concat(bc) == "bc";
    SegmentsCons(bc, "2", []);
    assert ["2"] + [] == ["2"];
    var none: seq<Bytes> := [];
    var lexA: seq<Bytes> := ["a"];
    var lexBC: seq<Bytes> := ["bc"];
    assert Segments(bc[2..], []) == Some(none);
    assert lexBC + none == lexBC && lexA + lexBC == ["a", "bc"];
    assert Segments(bc, ["2"]) == Some(lexBC);
    SegmentsCons(abc, "1", ["2"]);
    assert ["1", "2"] == ["1"] + ["2"];
    SegmentsCons(bc, "1", []);
    assert ["1"] + [] == ["1"];
    assert Segments(bc[1..], []) == None;
    SegmentsCons(abc, "1", ["1"]);
    assert ["1", "1"] == ["1"] + ["1"];
    assert !IsDigit("x"[0]);
    assert Segments(bc, ["x"]) == None;
    SegmentsCons(abc, "1", ["x"]);
    assert ["1", "x"] == ["1"] + ["x"];
  }

  lemma SegmentsCons(chars: seq<Bytes>, comp: Bytes, comps: seq<Bytes>)
    requires IsDecimal(comp) && CharCount(comp) <= |chars|
    ensures Segments(chars, [comp] + comps)
      == Prepend([Concat(chars[..CharCount(comp)])], Segments(chars[CharCount(comp)..], comps))
  {
    assert ([comp] + comps)[0] == comp && ([comp] + comps)[1..] == comps;
  }

  // ---------------------------------------------------------------------------
  // The line loop of convertTxtToCSV

  function Prepend(xs: seq<Bytes>, o: Option<seq<Bytes>>): Option<seq<Bytes>>
  {
    match o
    case None => None
    case Some(ys) => Some(xs + ys)
  }

  lemma PrependNothing(o: Option<seq<Bytes>>)
    ensures Prepend([], o) == o
  {
    if o.Some? {
      assert [] + o.value == o.value;
    }
  }

  /** One component of the decomposition, seen from character `k` and component `i`. */
  lemma SegmentsStep(chars: seq<Bytes>, comps: seq<Bytes>, k: nat, i: nat)
    requires k <= |chars| && i < |comps|
    ensures !IsDecimal(comps[i]) ==> Segments(chars[k..], comps[i..]) == None
    ensures IsDecimal(comps[i]) && CharCount(comps[i]) > |chars| - k ==> Segments(chars[k..], comps[i..]) == None
    ensures IsDecimal(comps[i]) && CharCount(comps[i]) <= |chars| - k ==>
      var n := CharCount(comps[i]);
      Segments(chars[k..], comps[i..]) == Prepend([Concat(chars[k..k + n])], Segments(chars[k + n..], comps[i + 1..]))
  {
    assert comps[i..][0] == comps[i];
    assert comps[i..][1..] == comps[i + 1..];
    if IsDecimal(comps[i]) && CharCount(comps[i]) <= |chars| - k {
      var n := CharCount(comps[i]);
      assert chars[k..][..n] == chars[k..k + n];
      assert chars[k..][n..] == chars[k + n..];
    }
  }

  /** One turn of the decomposition loop: the morpheme of component `i0`
      joins the list and the scan moves past its characters. */
  lemma SegmentsAdvance(chars: seq<Bytes>, comps: seq<Bytes>, whole: Option<seq<Bytes>>, done: seq<Morpheme>,
                        k0: nat, i0: nat, list: seq<Morpheme>, k: nat, i: nat)
    requires i0 < |comps| && i == i0 + 1 && IsDecimal(comps[i0])
    requires k0 <= k <= |chars| && k == k0 + CharCount(comps[i0])
    requires whole == Prepend(Lexicons(done), Segments(chars[k0..], comps[i0..]))
    requires done == LexiconsOnly(Lexicons(done))
    requires list == done + [Morpheme(Concat(chars[k0..k]), [])]
    ensures whole == Prepend(Lexicons(list), Segments(chars[k..], comps[i..]))
    ensures list == LexiconsOnly(Lexicons(list))
  {
    var morp := Morpheme(Concat(chars[k0..k]), []);
    SegmentsStep(chars, comps, k0, i0);
    LexiconsAppend(done, morp);
    PrependPrepend(Lexicons(done), [morp.lexicon], Segments(chars[k..], comps[i..]));
  }

  /** The inner loop of the decomposition: the morpheme of a numeric component
      gets as many of the next characters as the component says, or the
      tokenizer runs dry first. */
  method TakeCharacters(chars: seq<Bytes>, k0: nat, comp: Bytes) returns (valid: bool, morp: Morpheme, k: nat)
    requires k0 <= |chars| && IsDecimal(comp)
    ensures valid <==> CharCount(comp) <= |chars| - k0
    ensures valid ==> k == k0 + CharCount(comp) && morp == Morpheme(Concat(chars[k0..k]), [])
  {
    var charCount := ReadCharCount(comp);
    morp := Morpheme([], []);
    k := k0;
    valid := true;
    var j := 0;
    assert chars[k0..k0] == [];
    while j < charCount
      invariant 0 <= j <= charCount && k == k0 + j && k <= |chars|
      invariant morp == Morpheme(Concat(chars[k0..k]), [])
    {
      if k < |chars| {
        ghost var before := morp;
        morp := morp.(lexicon := morp.lexicon + chars[k]);
        k := k + 1;
        TakeOneMore(chars, k0, k, before, morp);
      } else {
        valid := false;
        return;
      }
      j := j + 1;
    }
  }

  /** The character count of a numeric component, as `convertFromStr<int>`
      reads it. */
  method ReadCharCount(comp: Bytes) returns (n: int)
    requires IsDecimal(comp)
    ensures n == CharCount(comp)
  {
    n := ConvertFromStr(comp);
    CharCountIsConversion(comp);
  }

  /** The morpheme grows by the next character. */
  lemma TakeOneMore(chars: seq<Bytes>, k0: nat, k: nat, before: Morpheme, after: Morpheme)
    requires k0 < k <= |chars|
    requires before == Morpheme(Concat(chars[k0..k - 1]), [])
    requires after == before.(lexicon := before.lexicon + chars[k - 1])
    ensures after == Morpheme(Concat(chars[k0..k]), [])
  {
    ConcatAppend(chars[k0..k - 1], chars[k - 1]);
    SliceSnoc(chars, k0, k);
  }

  lemma LexiconsAppend(ms: seq<Morpheme>, m: Morpheme)
    ensures Lexicons(ms + [m]) == Lexicons(ms) + [m.lexicon]
  {
  }

  lemma PrependPrepend(a: seq<Bytes>, b: seq<Bytes>, o: Option<seq<Bytes>>)
    ensures Prepend(a, Prepend(b, o)) == Prepend(a + b, o)
  {
    if o.Some? {
      assert a + (b + o.value) == (a + b) + o.value;
    }
  }

  /** The decomposition loop: the tokenizer hands out the characters of `word`
      one at a time and every numeric component takes that many of them into a
      morpheme. The line is good when every component is numeric, no component
      runs out of characters and no character is left. */
  method SegmentWord(word: Bytes, comps: seq<Bytes>, bc: Bytes -> nat) returns (ok: bool, decompList: seq<Morpheme>)
    ensures ok <==> Segments(Characters(word, bc), comps).Some?
    ensures ok ==> decompList == LexiconsOnly(Segments(Characters(word, bc), comps).value)
  {
    var chars := Characters(word, bc);
    var k := 0;
    decompList := [];
    var i := 0;
    assert chars[0..] == chars && comps[0..] == comps;
    assert Lexicons([]) == [];
    PrependNothing(Segments(chars, comps));
    while i < |comps|
      invariant 0 <= i <= |comps| && 0 <= k <= |chars|
      invariant Segments(chars, comps) == Prepend(Lexicons(decompList), Segments(chars[k..], comps[i..]))
      invariant decompList == LexiconsOnly(Lexicons(decompList))
    {
      var isNum := IsNumber(comps[i]);
      if !isNum {
        SegmentsStep(chars, comps, k, i);
        return false, decompList;
      }
      var valid, morp, k' := TakeCharacters(chars, k, comps[i]);
      if !valid {
        SegmentsStep(chars, comps, k, i);
        return false, decompList;
      }
      ghost var done, k0, i0 := decompList, k, i;
      decompList := decompList + [morp];
      k, i := k', i + 1;
      SegmentsAdvance(chars, comps, Segments(chars, comps), done, k0, i0, decompList, k, i);
    }
    ok := k == |chars|;
    assert comps[i..] == [];
    if ok {
      assert chars[k..] == [];
      assert Lexicons(decompList) + [] == Lexicons(decompList);
    }
  }

  /** `decompList[i].readForm_ = compVec[i]` for every index. */
  method AssignReadForms(decompList: seq<Morpheme>, compVec: seq<Bytes>) returns (r: seq<Morpheme>)
    requires |compVec| == |decompList|
    ensures r == WithReadForms(Lexicons(decompList), compVec)
  {
    r := decompList;
    for i := 0 to |compVec|
      invariant |r| == |decompList|
      invariant forall t :: 0 <= t < i ==> r[t] == Morpheme(decompList[t].lexicon, compVec[t])
      invariant forall t :: i <= t < |r| ==> r[t] == decompList[t]
    {
      r := r[i := r[i].(readForm := compVec[i])];
    }
  }

  /** The whole reading: the components appended one after the other. */
  method WholeRead(compVec: seq<Bytes>) returns (wholeRead: Bytes)
    ensures wholeRead == Concat(compVec)
  {
    wholeRead := [];
    for i := 0 to |compVec|
      invariant wholeRead == Concat(compVec[..i])
    {
      ConcatAppend(compVec[..i], compVec[i]);
      assert compVec[..i + 1] == compVec[..i] + [compVec[i]];
      wholeRead := wholeRead + compVec[i];
    }
    assert compVec[..|compVec|] == compVec;
  }

  /** The row prefix as the source writes it: the word and costs, the POS, then
      `,*` from the POS field count up to the reading offset. */
  method WriteRowPrefix(word: Bytes, noun: NounPos, readFormOffset: int) returns (out: Bytes)
    ensures out == RowPrefix(word, noun, readFormOffset)
  {
    out := word + CONTEXT_IDS + USER_NOUN_COST;
    out := out + FIELD_SEPARATOR + noun.full;
    ghost var base := out;
    var i: int := noun.fieldCount;
    while i < readFormOffset
      invariant noun.fieldCount <= i && (i <= readFormOffset || i == noun.fieldCount)
      invariant out == base + Repeat(EMPTY_FIELD, i - noun.fieldCount)
    {
      RepeatAppend(EMPTY_FIELD, i - noun.fieldCount);
      out := out + EMPTY_FIELD;
      i := i + 1;
    }
    assert Repeat(EMPTY_FIELD, i - noun.fieldCount) == Repeat(",*", readFormOffset - noun.fieldCount);
  }

  /** The fields after a numeric PATTERN: an optional READ field, which must have
      one component per morpheme. */
  method ReadReadField(line: Bytes, word: Bytes, i: nat, decompList: seq<Morpheme>) returns (v: Verdict)
    requires i <= |line|
    requires decompList == LexiconsOnly(Lexicons(decompList))
    ensures v == AfterPattern(line, word, i, Lexicons(decompList))
  {
    var read := ExtractToken(line, i);
    if read.None? {
      return Accept(NO_READING, Some(DecompEntry(word, decompList)));
    }
    var compVec := TokenizeCSV(read.value.text);
    if |compVec| == 0 || |compVec| != |decompList| {
      return Reject;
    }
    var withReads := AssignReadForms(decompList, compVec);
    var wholeRead := WholeRead(compVec);
    v := Accept(wholeRead, Some(DecompEntry(word, withReads)));
  }

  /** The fields after the word. */
  method ReadPatternFields(line: Bytes, word: Token, bc: Bytes -> nat) returns (v: Verdict)
    requires word.next <= |line|
    ensures v == AfterWord(line, word, bc)
  {
    var pattern := ExtractToken(line, word.next);
    if pattern.None? {
      return Accept(NO_READING, None);
    }
    var compVec := TokenizeCSV(pattern.value.text);
    if |compVec| == 0 {
      return Reject;
    }
    var firstIsNumber := IsNumber(compVec[0]);
    if !firstIsNumber {
      var wholeRead := WholeRead(compVec);
      return Accept(wholeRead, None);
    }
    var ok, decompList := SegmentWord(word.text, compVec, bc);
    if !ok {
      return Reject;
    }
    ghost var lex := Segments(Characters(word.text, bc), compVec).value;
    assert Lexicons(decompList) == lex by {
      assert Lexicons(LexiconsOnly(lex)) == lex;
    }
    assert AfterWord(line, word, bc) == AfterPattern(line, word.text, pattern.value.next, lex);
    v := ReadReadField(line, word.text, pattern.value.next, decompList);
  }

  /** The body of the line loop of `convertTxtToCSV` for one line read from the file. */
  method ConvertOneLine(raw: Bytes, noun: NounPos, readFormOffset: int, bc: Bytes -> nat) returns (o: LineOutcome)
    ensures o == ConvertLine(raw, noun, readFormOffset, bc)
  {
    var line := CutAtCR(raw);
    if line == [] || line[0] == ';' || line[0] == '#' {
      return Skipped;
    }
    var word := ExtractToken(line, 0);
    if word.None? {
      return Skipped;
    }
    var out := WriteRowPrefix(word.value.text, noun, readFormOffset);
    var v := ReadPatternFields(line, word.value, bc);
    if v.Reject? {
      return Rejected(out);
    }
    o := Accepted(out + FIELD_SEPARATOR + v.reading + LINE_END, v.entry);
  }
}
