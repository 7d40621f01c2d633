/** The knowledge of the MeCab-based analyzer (source/src/jma_knowledge.cpp):
    the dictionary settings, the user-dictionary conversion and compilation, the
    keyword POS filter and the sentence separators. */
module JmaKnowledge {
  import opened Text
  import opened StrUtil
  import K = Knowledge
  import opened DictConfig
  import opened Separators
  import opened UserDict

  const BIN_USER_DICT_MEMORY_FILE: Bytes := "user.bin"
  const TXT_USER_DICT_MEMORY_FILE: Bytes := "user.csv"

  /** The arguments `compileUserDict` passes to the dictionary indexer. */
  function CompileParams(systemDictPath: Bytes, binUserDic: Bytes, encode: K.EncodeType): (r: seq<Bytes>)
    ensures |r| == 10 && r[2] == systemDictPath && r[4] == binUserDic
    ensures r[0] == "JMA_Knowledge" && r[1] == "-d" && r[3] == "-u" && r[5] == "-f" && r[7] == "-t"
    ensures r[6] == r[8] == K.EncodeStr(encode) && r[9] == TXT_USER_DICT_MEMORY_FILE
  {
    ["JMA_Knowledge", "-d", systemDictPath, "-u", binUserDic,
     "-f", K.EncodeStr(encode), "-t", K.EncodeStr(encode), TXT_USER_DICT_MEMORY_FILE]
  }

  /** The conversion of the user-dictionary files, in order, into one stream
      that starts empty, one count and one decomposition map that starts empty. */
  function ConvertUserDicts(fs: map<Bytes, seq<Bytes>>, names: seq<Bytes>, table: PosTable, userNounPOS: Bytes,
                            readFormOffset: int, bc: Bytes -> nat): Conversion
  {
    ConvertFiles(fs, names, ResolveUserNoun(table, userNounPOS), readFormOffset, bc, Conversion([], 0, map[]))
  }

  /** `JMA_Knowledge`. The encoding-independent part of the state is the
      `Knowledge` object `base`, which this class extends in the source. */
  class JmaKnowledge {
    const base: K.Knowledge
    var isOutputFullPOS: bool
    var baseFormOffset: int
    var readFormOffset: int
    var normFormOffset: int
    var userNounPOS: Bytes
    var configEncodeType: K.EncodeType
    var decompMap: map<Bytes, seq<Morpheme>>
    var binUserDic: Bytes
    var keywordPOSSet: set<int>
    var seps: Buckets

    /** The offsets start at 0 and the configuration charset at EUC-JP; the
        character-type object is built for the session's encode type. */
    constructor ()
      ensures fresh(base)
      ensures base.encodeType == K.EucJp && base.systemDictPath == [] && base.userDictNames == []
      ensures base.ctype == Some(K.EucJp) && base.ctypeRebuilds == 1
      ensures !isOutputFullPOS && baseFormOffset == 0 && readFormOffset == 0 && normFormOffset == 0
      ensures configEncodeType == DEFAULT_CONFIG_ENCODE_TYPE && userNounPOS == []
      ensures decompMap == map[] && binUserDic == [] && keywordPOSSet == {} && seps == EMPTY_BUCKETS
    {
      base := new K.Knowledge();
      isOutputFullPOS := false;
      baseFormOffset, readFormOffset, normFormOffset := 0, 0, 0;
      userNounPOS := [];
      configEncodeType := DEFAULT_CONFIG_ENCODE_TYPE;
      decompMap := map[];
      binUserDic := [];
      keywordPOSSet := {};
      seps := EMPTY_BUCKETS;
      new;
      base.OnEncodeTypeChange(base.GetEncodeType());
    }

    /** `hasUserDict`: whether any user-dictionary file name was added. */
    predicate HasUserDict(): (r: bool)
      reads this, base
      ensures r <==> |base.userDictNames| > 0
    {
      base.userDictNames != []
    }

    /** `isKeywordPOS`: an empty keyword set lets every POS through. */
    predicate IsKeywordPOS(pos: int): (r: bool)
      reads this
      ensures keywordPOSSet == {} ==> r
      ensures keywordPOSSet != {} ==> (r <==> pos in keywordPOSSet)
    {
      keywordPOSSet == {} || pos in keywordPOSSet
    }

    /** `isSentenceSeparator` on the separators loaded so far. */
    predicate IsSentenceSeparator(p: Bytes, bc: Bytes -> nat)
      reads this
    {
      IsSeparator(seps, p, bc)
    }

    /** `loadDictConfig`: the settings from the `dicrc` file, whose lines are
        `dicrc` (None when it does not exist); `decode` is
        `Knowledge::decodeEncodeType`, None standing for an unknown name. */
    method LoadDictConfig(dicrc: Option<seq<Bytes>>, decode: Bytes -> Option<K.EncodeType>)
      modifies this`baseFormOffset, this`readFormOffset, this`normFormOffset, this`userNounPOS, this`configEncodeType
      ensures var s := SettingsOf(LoadedEntries(dicrc), decode);
        && baseFormOffset == s.baseFormOffset && readFormOffset == s.readFormOffset
        && normFormOffset == s.normFormOffset && userNounPOS == s.userNounPOS
        && configEncodeType == s.configEncodeType
    {
      var ok, configMap := LoadConfig0(dicrc, map[]);
      assert configMap == LoadedEntries(dicrc);
      ApplySettings(configMap, decode);
    }

    /** The second half of `loadDictConfig`: every setting is looked up in the
        configuration map, with its default when the key is missing. */
    method ApplySettings(configMap: map<Bytes, Bytes>, decode: Bytes -> Option<K.EncodeType>)
      modifies this`baseFormOffset, this`readFormOffset, this`normFormOffset, this`userNounPOS, this`configEncodeType
      ensures var s := SettingsOf(configMap, decode);
        && baseFormOffset == s.baseFormOffset && readFormOffset == s.readFormOffset
        && normFormOffset == s.normFormOffset && userNounPOS == s.userNounPOS
        && configEncodeType == s.configEncodeType
    {
      baseFormOffset := ReadOffset(configMap, BASE_FORM_KEY, BASE_FORM_OFFSET_DEFAULT);
      readFormOffset := ReadOffset(configMap, READ_FORM_KEY, READ_FORM_OFFSET_DEFAULT);
      normFormOffset := ReadOffset(configMap, NORM_FORM_KEY, NORM_FORM_OFFSET_DEFAULT);
      var value := GetMapValue(configMap, USER_NOUN_POS_KEY);
      userNounPOS := if value.Some? then value.value else USER_NOUN_POS_DEFAULT;
      value := GetMapValue(configMap, CONFIG_CHARSET_KEY);
      var charset: Option<K.EncodeType> := None;
      if value.Some? {
        charset := decode(value.value);
      }
      configEncodeType := if charset.Some? then charset.value else DEFAULT_CONFIG_ENCODE_TYPE;
    }

    /** One offset of `loadDictConfig`: the value under `key` converted to an
        `int`, or `default` when the key is missing. */
    static method ReadOffset(configMap: map<Bytes, Bytes>, key: Bytes, default: int) returns (offset: int)
      ensures key !in configMap ==> offset == default
      ensures key in configMap ==> offset == ConvertFromStr(configMap[key])
    {
      var value := GetMapValue(configMap, key);
      offset := if value.Some? then ConvertFromStr(value.value) else default;
    }

    /** `convertTxtToCSV`: the user-dictionary file `userDicFile` (its lines in
        `fs`; missing from `fs` when it cannot be opened) is appended to the
        stream `ost` as dictionary rows; the result is the number of rows and
        the stream as left. */
    method ConvertTxtToCSV(fs: map<Bytes, seq<Bytes>>, userDicFile: Bytes, posTable: PosTable, bc: Bytes -> nat, ost: Bytes)
      returns (count: nat, out: Bytes)
      modifies this`decompMap
      ensures var r := ConvertFile(fs, userDicFile, ResolveUserNoun(posTable, userNounPOS), readFormOffset, bc,
                                   Conversion(ost, 0, old(decompMap)));
        count == r.count && out == r.text && decompMap == r.decomp
    {
      count, out := 0, ost;
      var userNounIndex := GetIndexFromAlphaPOS(posTable, userNounPOS);
      if userNounIndex == -1 {
        return;
      }
      if userNounIndex !in posTable.fullCategory {
        return;
      }
      var nounPOS := posTable.fullCategory[userNounIndex];
      var t := TokenizeCSV(nounPOS);
      var noun := NounPos(nounPOS, |t|);
      if userDicFile !in fs {
        return;
      }
      assert ResolveUserNoun(posTable, userNounPOS) == Some(noun);
      count, out := ConvertLinesInto(fs[userDicFile], noun, readFormOffset, bc, ost);
    }

    /** The line loop of `convertTxtToCSV`: every line of the file is
        converted in order onto the stream `ost`. */
    method ConvertLinesInto(lines: seq<Bytes>, noun: NounPos, rfo: int, bc: Bytes -> nat, ost: Bytes)
      returns (count: nat, out: Bytes)
      modifies this`decompMap
      ensures Conversion(out, count, decompMap) == ConvertLines(lines, noun, rfo, bc, Conversion(ost, 0, old(decompMap)))
    {
      count, out := 0, ost;
      ghost var c0 := Conversion(ost, 0, decompMap);
      assert lines[..0] == [];
      for i := 0 to |lines|
        invariant ConvertLines(lines[..i], noun, rfo, bc, c0) == Conversion(out, count, decompMap)
      {
        out, count := ConvertNextLine(lines, i, noun, rfo, bc, c0, out, count);
      }
      assert lines[..|lines|] == lines;
    }

    /** One turn of the line loop: the stream, count and map that hold the
        conversion of the first `i` lines come to hold that of one more. */
    method ConvertNextLine(lines: seq<Bytes>, i: nat, noun: NounPos, rfo: int, bc: Bytes -> nat,
                           ghost c0: Conversion, ost: Bytes, count: nat)
      returns (out: Bytes, count': nat)
      requires i < |lines|
      requires ConvertLines(lines[..i], noun, rfo, bc, c0) == Conversion(ost, count, decompMap)
      modifies this`decompMap
      ensures ConvertLines(lines[..i + 1], noun, rfo, bc, c0) == Conversion(out, count', decompMap)
    {
      var o := ConvertOneLine(lines[i], noun, rfo, bc);
      ConvertLinesSnoc(lines[..i], lines[i], noun, rfo, bc, c0);
      PrefixSnoc(lines, i);
      out, count' := WriteOutcome(o, ost, count);
    }

    /** The effect of one line on the stream, the count and the map: a
        rejected line leaves its fragment, an accepted one its row, one more
        count and, with a decomposition, the map entry of its word. */
    method WriteOutcome(o: LineOutcome, ost: Bytes, count: nat) returns (out: Bytes, count': nat)
      modifies this`decompMap
      ensures Conversion(out, count', decompMap) == ApplyOutcome(Conversion(ost, count, old(decompMap)), o)
    {
      out, count' := ost, count;
      match o {
        case Skipped =>
        case Rejected(fragment) =>
          out := out + fragment;
        case Accepted(row, entry) =>
          out := out + row;
          if entry.Some? {
            decompMap := decompMap[entry.value.word := entry.value.morphemes];
          }
          count' := count' + 1;
      }
    }

    /** `compileUserDict`: without user dictionaries nothing happens and the
        result is false. Otherwise the map is rebuilt from the files, the binary
        dictionary name is set, and the result is true exactly when some row was
        converted, the rows were copied into the archive (`copyStrToDict`) and
        the indexer (`dictIndex`, with the parameter vector) returned 0. */
    method CompileUserDict(fs: map<Bytes, seq<Bytes>>, posTable: PosTable, bc: Bytes -> nat,
                           copyStrToDict: Bytes -> bool, dictIndex: seq<Bytes> -> int)
      returns (ok: bool)
      modifies this`decompMap, this`binUserDic
      ensures old(base.userDictNames) == [] ==> !ok && decompMap == old(decompMap) && binUserDic == old(binUserDic)
      ensures old(base.userDictNames) != [] ==>
        var r := ConvertUserDicts(fs, base.userDictNames, posTable, userNounPOS, readFormOffset, bc);
        && binUserDic == BIN_USER_DICT_MEMORY_FILE
        && decompMap == r.decomp
        && (ok <==> r.count > 0 && copyStrToDict(r.text)
                    && dictIndex(CompileParams(base.systemDictPath, binUserDic, base.encodeType)) == 0)
    {
      var names := base.userDictNames;
      if |names| == 0 {
        ok := false;
        return;
      }
      decompMap := map[];
      binUserDic := BIN_USER_DICT_MEMORY_FILE;
      var osst: Bytes := [];
      var entryCount: nat := 0;
      ghost var noun := ResolveUserNoun(posTable, userNounPOS);
      ghost var c0 := Conversion([], 0, map[]);
      assert names[..0] == [];
      for i := 0 to |names|
        invariant ConvertFiles(fs, names[..i], noun, readFormOffset, bc, c0) == Conversion(osst, entryCount, decompMap)
        invariant binUserDic == BIN_USER_DICT_MEMORY_FILE
      {
        ghost var before := decompMap;
        var n, out := ConvertTxtToCSV(fs, names[i], posTable, bc, osst);
        ConvertFileCountShift(fs, names[i], noun, readFormOffset, bc, osst, entryCount, before);
        ConvertFilesAppend(fs, names[..i], names[i], noun, readFormOffset, bc, c0);
        assert names[..i + 1] == names[..i] + [names[i]];
        entryCount := entryCount + n;
        osst := out;
      }
      assert names[..|names|] == names;
      if entryCount == 0 {
        return false;
      }
      if !copyStrToDict(osst) {
        return false;
      }
      var compileParam := CompileParams(base.systemDictPath, binUserDic, base.GetEncodeType());
      var compileResult := dictIndex(compileParam);
      ok := compileResult == 0;
    }

    /** `addSentenceSeparator`: the value goes into the bucket of its occupied
        byte count; the result says whether it was not there yet. The source
        asserts a count below 4, that is a value below 0x10000. */
    method AddSentenceSeparator(val: bv32) returns (inserted: bool)
      requires val < 0x1_0000
      modifies this`seps
      ensures seps == AddSeparator(old(seps), val)
      ensures OccupiedBytes(val) < 4 && (inserted <==> val !in old(seps)[OccupiedBytes(val)])
    {
      OccupiedBytesBelowFour(val);
      var w := GetOccupiedBytes(val);
      inserted := val !in seps[w];
      seps := seps[w := seps[w] + {val}];
    }

    /** `loadSentenceSeparatorConfig`: 0 when the file (its lines, None when it
        cannot be opened) is missing; otherwise every line is read into the
        buckets and the result is 1. */
    method LoadSentenceSeparatorConfig(file: Option<seq<Bytes>>, bc: Bytes -> nat) returns (r: int)
      modifies this`seps
      ensures file.None? ==> r == 0 && seps == old(seps)
      ensures file.Some? ==> r == 1 && seps == LoadSeparators(old(seps), file.value, bc)
    {
      if file.None? {
        return 0;
      }
      var lines := file.value;
      var i := 0;
      while i < |lines|
        invariant 0 <= i <= |lines|
        invariant LoadSeparators(seps, lines[i..], bc) == LoadSeparators(old(seps), lines, bc)
      {
        assert lines[i..][0] == lines[i] && lines[i..][1..] == lines[i + 1..];
        var line := CutAtCR(lines[i]);
        if line != [] && line[0] != '#' {
          var bytes := bc(line);
          if 1 <= bytes <= 4 {
            seps := seps[bytes := seps[bytes] + {Pack(line, bytes)}];
          }
        }
        i := i + 1;
      }
      assert lines[i..] == [];
      r := 1;
    }
  }
}
