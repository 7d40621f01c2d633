# ijma knowledge layer in Dafny

This project models the knowledge layer of ijma, a Japanese morphological
analyzer built on MeCab. The knowledge object holds the session's settings and
the data the analyzer consults:

- the encode type, the system dictionary path and the list of user dictionaries
  (class `Knowledge`);
- the feature offsets, the user-noun POS name and the configuration charset,
  read from the `dicrc` configuration file by `loadConfig0` and
  `loadDictConfig`;
- the user dictionaries. `convertTxtToCSV` turns each text user dictionary
  into MeCab CSV rows and collects the decomposition map, and
  `compileUserDict` runs that over every user dictionary and hands the result
  to the dictionary indexer;
- the sentence separators, kept in buckets by byte width and loaded from a
  configuration file;
- the Shift-JIS character type's byte count.

The files are:

- `text.dfy` (module `Text`): byte strings and small string operations.
  These are `find`, cutting a line at `\r`, whitespace scans, concatenation,
  join and counting.
- `strutil.dfy` (module `StrUtil`): `tokenizeCSV`, `isNumber`,
  `convertFromStr<int>` and `createFilePath`.
- `knowledge.dfy` (module `Knowledge`): the base class `Knowledge` with its
  fields and setters, and `ENCODE_TYPE_STR_`.
- `ctype_sjis.dfy` (module `CTypeSJIS`): `JMA_CType_SJIS::getByteCount`.
- `dict_config.dfy` (module `DictConfig`): the configuration-file grammar,
  `loadConfig0` as a method over the file's lines, `getMapValue`, and the
  settings `loadDictConfig` derives from the map.
- `separators.dfy` (module `Separators`): the separator buckets, the byte
  packing, `getOccupiedBytes`, and the effect of loading and of adding a
  separator.
- `user_dict.dfy` (module `UserDict`): one line of a text user dictionary
  (`ConvertLine`), the decomposition of a word by its numeric pattern
  (`Segments`), and the conversion of whole files. It also holds the methods
  that do the per-line work step by step.
- `jma_knowledge.dfy` (module `JmaKnowledge`): the class `JmaKnowledge` with
  the fields the source updates in place. Its methods are the constructor,
  `loadDictConfig`, `convertTxtToCSV`, `compileUserDict`,
  `addSentenceSeparator` and `loadSentenceSeparatorConfig`, plus its queries.

Strings are byte strings: `Byte` is a `char` below 256. A C string argument
is a `Bytes` value; where the source reads past the end of its content,
`ByteAt` gives the terminating NUL. Files are values: a configuration or
dictionary file is an `Option` of its lines, or a map from file name to
lines, and a missing file is `None` or an absent key. The character type's
byte counter is a parameter `bc`. MeCab's indexer, the in-memory dictionary
copy and `Knowledge::decodeEncodeType` are parameters too (`dictIndex`,
`copyStrToDict`, `decode`).

Behaviours of the code worth stating:

- `getOccupiedBytes` shifts by 4 bits per step (see Findings).
- A configuration line without `=` ends `loadConfig0` with `false`. The pairs
  read before it stay in the map, and `loadDictConfig` applies them.
- An unresolvable user-noun POS makes `convertTxtToCSV` contribute nothing for
  each file. The compile then fails because no entry was converted.
- A separator line whose first character is wider than 4 bytes is skipped,
  as the release build does after its failed assertion.
- A READ field is checked only against the number of pattern components.
  Empty components in it are accepted.
- A present offset setting that is not a whole number becomes 0. Values out
  of the 32-bit `int` range become 0 as well.

## Model

| member | source | states |
|---|---|---|
| Text.CutAtCR | source/src/jma_knowledge.cpp:366 | the line is cut exactly at its first carriage return, or kept whole when it has none |
| StrUtil.TokenizeCSV | source/src/jma_knowledge.cpp:110-142 | the loop builds exactly `Components(str)`: the text before each comma, then the non-empty rest |
| StrUtil.ComponentsCount | source/src/jma_knowledge.cpp:110-142 | the number of components is the number of commas, plus one when the string is non-empty and does not end in a comma |
| StrUtil.ComponentsHaveNoComma | source/src/jma_knowledge.cpp:110-142 | no component contains a comma |
| StrUtil.JoinComponents | source/src/jma_knowledge.cpp:110-142 | joining the components with commas gives back a string that does not end in a comma |
| StrUtil.JoinComponentsTrailingComma | source/src/jma_knowledge.cpp:110-142 | for a string ending in a comma, the joined components plus that comma give it back (the empty last field is dropped) |
| StrUtil.ComponentsOfJoin | source/src/jma_knowledge.cpp:110-142 | tokenizing comma-free parts joined with commas gives the parts back when the last one is non-empty |
| StrUtil.IsNumber | source/src/jma_knowledge.cpp:149-165 | true exactly for a non-empty string of ASCII digits |
| StrUtil.ConvertFromStr | source/src/jma_knowledge.cpp:90-102 | the value `stringstream >> int` reads, or 0 on failure; it always lies in the 32-bit `int` range |
| StrUtil.ConvertDecimal | source/src/jma_knowledge.cpp:90-102 | a digit string converts to its decimal value, or to 0 when that exceeds `INT_MAX` |
| StrUtil.ConvertNumeral | source/src/jma_knowledge.cpp:90-102 | whitespace, an optional sign, a decimal numeral and whitespace convert to the signed value, or to 0 outside the 32-bit `int` range |
| StrUtil.ConvertNonNumeral | source/src/jma_knowledge.cpp:90-102 | text that is not such a whole number converts to the default 0 |
| StrUtil.TrailingTextIsZero | source/src/jma_knowledge.cpp:95 | digits followed by text that is neither whitespace nor a digit (`1.5`, `12abc`) convert to 0, because extraction stops short of the end |
| StrUtil.ConvertOfDecimal | source/src/jma_knowledge.cpp:90-102 | converting the decimal numeral of any `n <= INT_MAX` gives `n` back |
| StrUtil.CreateFilePath | source/src/jma_knowledge.cpp:805-825 | the result is the directory, a `/` when the directory is non-empty and lacks one, then the file |
| StrUtil.CreateFilePathTrailingSlash | source/src/jma_knowledge.cpp:805-825 | a directory with or without its trailing `/` gives the same path |
| DictConfig.LoadConfig0 | source/src/jma_knowledge.cpp:348-386 | a missing file returns false with the map untouched; otherwise the result and the map are those of `ParseConfig` over the lines |
| DictConfig.ReadConfigLine | source/src/jma_knowledge.cpp:364-382 | one loop turn classifies the line as blank, malformed or key/value, as `ClassifyConfigLine` says |
| DictConfig.SplitAtEquals | source/src/jma_knowledge.cpp:377-382 | the key ends before the whitespace that precedes `=`; the value starts after the whitespace that follows it |
| DictConfig.ParseConfigStep | source/src/jma_knowledge.cpp:363-383 | a blank line is skipped, a malformed one stops with false, an entry sets its key and parsing goes on |
| DictConfig.ConfigEntryParts | source/src/jma_knowledge.cpp:364-382 | an entry's key is a prefix of the line before the first `=`; its value is a suffix after it; only whitespace lies between; key and value are trimmed |
| DictConfig.ClassifyFormattedEntry | source/src/jma_knowledge.cpp:364-382 | `key gap = gap value` with a trimmed, `=`-free, non-comment key is read back as exactly that key and value |
| DictConfig.ParseConfigAppend | source/src/jma_knowledge.cpp:363-383 | parsing two runs of lines is parsing the second from the map the first left |
| DictConfig.LaterDuplicateWins | source/src/jma_knowledge.cpp:382 | a later line with the same key overwrites the earlier value |
| DictConfig.MalformedKeepsEarlierPairs | source/src/jma_knowledge.cpp:369-374 | at the first line without `=` the load fails, and the map keeps what the lines before it set |
| DictConfig.WellFormedLinesRead | source/src/jma_knowledge.cpp:363-385 | a file with no line lacking `=` loads successfully |
| DictConfig.GetMapValue | source/src/jma_knowledge.cpp:171-177 | the value of the key when present, and nothing (the null pointer) otherwise |
| DictConfig.OffsetSetting | source/src/jma_knowledge.cpp:398-405 | a missing key gives the default; a present one gives `convertFromStr<int>` of its value |
| DictConfig.SettingsOf | source/src/jma_knowledge.cpp:398-419 | each offset is its key's converted value or its default (6, 7, 9); same for the user noun POS (`N-USER`); an unknown or missing charset gives EUC-JP |
| DictConfig.MissingConfigGivesDefaults | source/src/jma_knowledge.cpp:393-419 | without a `dicrc` every setting takes its default |
| DictConfig.NonNumericOffsetIsZero | source/src/jma_knowledge.cpp:398-405 | a present offset whose value is not a whole number becomes 0, not the default |
| DictConfig.MalformedConfigStillApplied | source/src/jma_knowledge.cpp:393-397 | when the load fails at a line lacking `=`, the settings still come from the pairs before it |
| Knowledge.EncodeStr | source/src/knowledge.cpp:16 | the names `EUC-JP` and `SHIFT-JIS` of the two encode types |
| Knowledge.Knowledge.constructor | source/src/knowledge.cpp:18-21 | a new session uses EUC-JP, with no system dictionary path and no user dictionary |
| Knowledge.Knowledge.GetEncodeType | source/src/knowledge.cpp:36-39 | the current encode type |
| Knowledge.Knowledge.SetEncodeType | source/src/knowledge.cpp:27-34 | the encode type becomes `t`; only a change rebuilds the character type; dictionaries are untouched |
| Knowledge.Knowledge.OnEncodeTypeChange | source/src/jma_knowledge.cpp:832-836 | the character type is rebuilt for the new encode type |
| Knowledge.Knowledge.SetSystemDict | source/src/knowledge.cpp:41-46 | the system dictionary path becomes the argument |
| Knowledge.Knowledge.AddUserDict | source/src/knowledge.cpp:48-53 | the file name is appended to the user dictionaries and earlier names are kept in order |
| CTypeSJIS.GetByteCount | source/src/jma_ctype_sjis.cpp:32-45 | 0 at the terminator, 1 for a lead byte below 0x80, 2 otherwise; never more than the bytes before the NUL |
| CTypeSJIS.ByteCounter | source/src/jma_ctype_sjis.cpp:32-45 | the release build's byte count on any buffer: 2 exactly for a lead byte of 0x80 or more, and equal to `GetByteCount` wherever the assertion holds |
| Separators.OccupiedBytes | source/src/jma_knowledge.cpp:865-875 | the count is at least 1, and exactly 1 for values below 0x100 |
| Separators.OccupiedBytesBelowFour | source/src/jma_knowledge.cpp:865-875 | the asserted bound `ret < 4` holds exactly for values below 0x10000 |
| Separators.GetOccupiedBytes | source/src/jma_knowledge.cpp:865-875 | the shifting loop computes `OccupiedBytes`, which lies in 1..3 for the values the assertion admits |
| Separators.OccupiedBytesTwoByteValue | source/src/jma_knowledge.cpp:865-875 | every value in 0x1000..0xFFFF is counted as 3 bytes |
| Separators.AddSeparator | source/src/jma_knowledge.cpp:860-863 | the value joins the bucket of its occupied byte count and every other bucket is unchanged |
| Separators.LoadSeparatorsContents | source/src/jma_knowledge.cpp:877-919 | after loading, each bucket is what it held plus the values of the lines whose first character has that width |
| Separators.LoadedLineIsSeparator | source/src/jma_knowledge.cpp:877-919 | the first character of every line that defines a separator is then a sentence separator |
| Separators.IsSeparatorAfterLoad | source/src/jma_knowledge.cpp:838-858 | after a load, `isSentenceSeparator` holds exactly for separators from before and for the loaded values of the character's width |
| Separators.LoadSeparatorsIdempotent | source/src/jma_knowledge.cpp:877-919 | loading the same file twice is loading it once |
| Separators.LoadSeparatorsKeeps | source/src/jma_knowledge.cpp:877-919 | loading never removes a separator |
| Separators.AddTwoByteSeparatorMisfiled | source/src/jma_knowledge.cpp:838-875 | adding a two-byte character with lead byte at least 0x10 leaves `isSentenceSeparator` unchanged for it |
| Separators.IdeographicSpaceNotFound | source/src/jma_knowledge.cpp:838-875 | after adding 0x8140, the Shift-JIS ideographic space is not a sentence separator |
| Separators.SjisIdeographicSpaceNotFound | source/src/jma_knowledge.cpp:838-875 | with the Shift-JIS byte count the ideographic space is two bytes wide, and after adding 0x8140 it is not a sentence separator |
| Separators.OccupiedBytesByByte | source/src/jma_knowledge.cpp:865-875 | corrected count by whole bytes: 1..4, and 1 exactly below 0x100 |
| Separators.OccupiedBytesByByteOfPack | source/src/jma_knowledge.cpp:838-858 | a character of width `w` with a non-zero lead byte packs to a value of `w` whole bytes |
| Separators.AddSeparatorByByte | source/src/jma_knowledge.cpp:860-863 | corrected add: the value joins the bucket of its whole-byte width, other buckets unchanged |
| Separators.AddSeparatorByByteFound | source/src/jma_knowledge.cpp:838-863 | with the corrected add, an added character is always found by `isSentenceSeparator` |
| UserDict.GetIndexFromAlphaPOS | source/src/jma_knowledge.cpp:925-926 | -1 exactly for an unknown POS name, otherwise its index |
| UserDict.ResolveUserNoun | source/src/jma_knowledge.cpp:925-941 | the user noun resolves exactly when its name has an index with a full-category string; the field count is that string's component count |
| UserDict.ExtractToken | source/src/jma_knowledge.cpp:975 | `iss >> s` skips only whitespace, then yields the maximal non-empty run of non-whitespace that starts at the first non-space; it fails exactly when only whitespace is left |
| UserDict.ConcatCharacters | source/src/jma_knowledge.cpp:1004-1025 | the characters the tokenizer hands out put together give the word back |
| UserDict.CharCountIsConversion | source/src/jma_knowledge.cpp:1014 | a component's character count is `convertFromStr<int>` of it |
| UserDict.SegmentsSucceedIff | source/src/jma_knowledge.cpp:1005-1043 | the decomposition succeeds exactly when every component is numeric and the counts add up to the word's characters |
| UserDict.SegmentsShape | source/src/jma_knowledge.cpp:1005-1031 | a successful decomposition has one lexicon per component, and together they spell the word |
| UserDict.SegmentAt | source/src/jma_knowledge.cpp:1005-1031 | segment i of a successful decomposition is exactly the `CharCount(comps[i])` characters that follow the ones the earlier components took |
| UserDict.SegmentsCut | source/src/jma_knowledge.cpp:1005-1031 | a successful decomposition cuts the word's characters as its counts say (`CutBy`), one segment per component in order |
| UserDict.SegmentsExamples | source/src/jma_knowledge.cpp:1005-1043 | `abc` cut `1,2` gives `a`,`bc`; `1,1` leaves a character over; `1,x` is not numeric |
| UserDict.SegmentWord | source/src/jma_knowledge.cpp:1001-1043 | the loop succeeds exactly when `Segments` does, and then builds those lexicons with empty readings |
| UserDict.TakeCharacters | source/src/jma_knowledge.cpp:1013-1028 | the count is valid exactly when enough characters remain; the morpheme is then the next `count` characters |
| UserDict.ReadCharCount | source/src/jma_knowledge.cpp:1014 | the count read from a numeric component |
| UserDict.AssignReadForms | source/src/jma_knowledge.cpp:1059-1062 | each morpheme keeps its lexicon and takes the READ component of its index |
| UserDict.WholeRead | source/src/jma_knowledge.cpp:1088-1094 | the whole reading is the components put together |
| UserDict.WriteRowPrefix | source/src/jma_knowledge.cpp:975-987 | the row starts with the word, `,-1,-1,-500`, the full POS and one `,*` per missing feature up to the reading offset |
| UserDict.ReadReadField | source/src/jma_knowledge.cpp:1045-1065 | the READ field check and assignment computes `AfterPattern` |
| UserDict.ReadPatternFields | source/src/jma_knowledge.cpp:989-1097 | the handling of the fields after the word computes `AfterWord` |
| UserDict.ConvertOneLine | source/src/jma_knowledge.cpp:959-1099 | one loop turn computes `ConvertLine`: skipped, rejected with its fragment, or accepted with its row and entry |
| UserDict.NumericPatternVerdict | source/src/jma_knowledge.cpp:999-1094 | a numeric pattern is accepted exactly when every component is numeric, the counts add up to the word's characters and any READ field has one component per morpheme; then morpheme i is the next `CharCount(comps[i])` characters of the word (`CutBy`), the READ components are assigned in order, and the reading is the READ components joined, or `*` |
| UserDict.NumericLineOutcome | source/src/jma_knowledge.cpp:975-1099 | a line with a numeric pattern is never skipped; it is accepted exactly when the counts are numeric, sum to the word's characters and match any READ field; an accepted row is prefix, `,`, the joined READ components or `*`, and a newline, with the word cut per component; a rejected line leaves only the unterminated prefix |
| UserDict.NonNumericPatternIsReading | source/src/jma_knowledge.cpp:1080-1094 | a pattern whose first component is not a number is itself the reading and adds no map entry |
| UserDict.ConvertLinesAppend | source/src/jma_knowledge.cpp:959-1101 | converting two runs of lines one after the other is converting them joined |
| UserDict.ConvertLinesSnoc | source/src/jma_knowledge.cpp:959-1101 | one more line applies its own outcome to the conversion so far |
| UserDict.ConvertOneMoreLine | source/src/jma_knowledge.cpp:959-1101 | a skipped line changes nothing; a rejected one only appends its fragment; an accepted one appends its row, counts one and overwrites its word's entry |
| UserDict.OutcomeNewlines | source/src/jma_knowledge.cpp:975-1099 | a rejected line's fragment holds no newline; an accepted row holds exactly one, at its end |
| UserDict.NewlinePerAcceptedLine | source/src/jma_knowledge.cpp:959-1101 | the count grows by exactly the number of newlines written |
| UserDict.NoAcceptedLineNoEntry | source/src/jma_knowledge.cpp:1067-1100 | the count never falls, and when no line is accepted the decomposition map is unchanged |
| UserDict.CommentLinesGiveNothing | source/src/jma_knowledge.cpp:961-965 | a file of empty, `;` and `#` lines contributes nothing |
| UserDict.ConvertLinesCountShift | source/src/jma_knowledge.cpp:923-1103 | starting from count `k` ends `k` above starting from 0, with the same stream and map |
| UserDict.ConvertFileCountShift | source/src/jma_knowledge.cpp:237-239 | adding a file's own count to the running total is converting it from that total |
| UserDict.ConvertFilesAppend | source/src/jma_knowledge.cpp:237-239 | the files are converted in order into one stream, one count and one map |
| UserDict.UnresolvedNounGivesNothing | source/src/jma_knowledge.cpp:925-937 | when the user noun's POS cannot be resolved no file contributes anything |
| UserDict.NoAcceptedFileLineNoEntry | source/src/jma_knowledge.cpp:237-244 | across files the count never falls, and at 0 the map is unchanged |
| JmaKnowledge.CompileParams | source/src/jma_knowledge.cpp:261-278 | ten arguments: the program name, `-d` and the system dictionary path, `-u` and `user.bin`, `-f` and `-t` each followed by the encode name, and `user.csv` |
| JmaKnowledge.JmaKnowledge.constructor | source/src/jma_knowledge.cpp:179-185 | the offsets start at 0 and the charset at EUC-JP; the character type is built once for EUC-JP; all collections are empty |
| JmaKnowledge.JmaKnowledge.HasUserDict | source/src/jma_knowledge.cpp:197-200 | true exactly when a user dictionary has been added |
| JmaKnowledge.JmaKnowledge.IsKeywordPOS | source/src/jma_knowledge.cpp:650-656 | every POS is a keyword POS while the set is empty; otherwise exactly the POS in the set |
| JmaKnowledge.JmaKnowledge.LoadDictConfig | source/src/jma_knowledge.cpp:388-431 | the five settings are `SettingsOf` the entries loaded from `dicrc`, even when the load failed |
| JmaKnowledge.JmaKnowledge.ApplySettings | source/src/jma_knowledge.cpp:398-419 | the fields take the settings of the map |
| JmaKnowledge.JmaKnowledge.ReadOffset | source/src/jma_knowledge.cpp:398-405 | a missing key gives the default; a present one gives `convertFromStr<int>` of its value |
| JmaKnowledge.JmaKnowledge.ConvertTxtToCSV | source/src/jma_knowledge.cpp:921-1104 | the count, stream and map are those of `ConvertFile` for the file, the resolved user noun and the reading offset |
| JmaKnowledge.JmaKnowledge.ConvertLinesInto | source/src/jma_knowledge.cpp:957-1103 | the read loop over a file's lines yields `ConvertLines` of them |
| JmaKnowledge.JmaKnowledge.ConvertNextLine | source/src/jma_knowledge.cpp:959-1101 | one loop turn extends the converted prefix by one line |
| JmaKnowledge.JmaKnowledge.WriteOutcome | source/src/jma_knowledge.cpp:976-1100 | the stream, count and map receive the line's outcome |
| JmaKnowledge.JmaKnowledge.CompileUserDict | source/src/jma_knowledge.cpp:202-298 | no user dictionary: false with nothing changed. Otherwise the map is rebuilt from all files, and the result is true exactly when some entry was converted, the copy succeeded and the indexer returned 0 |
| JmaKnowledge.JmaKnowledge.AddSentenceSeparator | source/src/jma_knowledge.cpp:860-863 | the value joins the bucket of its occupied byte count; the result says it was not there before |
| JmaKnowledge.JmaKnowledge.LoadSentenceSeparatorConfig | source/src/jma_knowledge.cpp:877-919 | a missing file returns 0 and changes nothing; otherwise it returns 1 and the buckets are `LoadSeparators` of the lines |

## Left out

- MeCab itself is not part of this model: the tagger, `mecab_dict_index` and
  the `JMA_Dictionary` archive. The indexer and the copy into memory are
  oracle parameters. `createEmptyBinaryUserDict` and `createEmptyTextUserDict`
  only prepare the archive and are not modelled.
- The file system is not modelled: files are maps from names to lines, and
  `getline`'s splitting of the stream is taken as given.
- `POSTable`, `CharTable`, `CTypeTokenizer` and the EUC-JP character type are
  not part of this model. The POS table is a pair of maps. The character type
  is the byte counter `bc`, clamped to 1..the remaining bytes inside the
  tokenizer. The end of a word is where no characters remain.
- Encoding conversion is not modelled, and `Knowledge::decodeEncodeType` is a
  parameter.
- These source operations are outside the knowledge core modelled here:
  logging, stop words, `createTagger`, `loadDict`, `encodeSystemDict`, and the
  file helpers other than `createFilePath`.
- `CreateFilePath`: only the POSIX branch is modelled. The Windows branch
  appends `\` instead.
- `CompileUserDict`: `entryCount` and the per-file count are unbounded. The
  32-bit unsigned wrap-around of `unsigned int` is not modelled, because it
  would need 2^32 accepted lines.
- Embedded NUL bytes inside a `std::string` are not modelled; only
  `GetByteCount` and the separator packing see a terminator.
- `AddSentenceSeparator`: its result reads `insert`'s return value as "newly
  inserted". The container type of `seps_` comes from a header that is not
  part of this model. The `keywordPOSSet_` type comes from one too; it is a set
  of ints there and is never filled in the modelled code.
- `Morpheme` holds only the lexicon and the reading. Its other fields are not
  set by this code.
- Most failed `assert`s follow the release build, which goes on past them.
  The `posSize > 0` assertion in `convertTxtToCSV` is not enforced. The
  `compVec.size()` assertion holds there, because a token is never empty.
  The exceptions are `GetOccupiedBytes`, `AddSeparator`, `AddSentenceSeparator`
  and `GetByteCount`, below.
- `Separators.GetOccupiedBytes`, `Separators.AddSeparator` and
  `JmaKnowledge.JmaKnowledge.AddSentenceSeparator` keep the assertion
  `ret > 0 && ret < 4` of `getOccupiedBytes` as the precondition
  `val < 0x10000`. The release build does not stop there. It would file
  values 0x10000..0xFFFFF in bucket 4, and larger values would index past the
  five buckets of `seps_`, which is undefined behaviour with nothing to model.
- `CTypeSJIS.GetByteCount`: the source asserts that a lead byte of 0x80 or
  more is followed by a non-NUL byte, and the model requires it. The release
  build would answer 2 regardless.
- `JmaKnowledge.JmaKnowledge.IsSentenceSeparator` is the bucket lookup
  `Separators.IsSeparator`. Its properties are stated by the `Separators`
  lemmas above, not by a contract of its own.

## Findings

| source | as written | input that shows it | evidently intended | confidence | as-written member | corrected member |
|---|---|---|---|---|---|---|
| source/src/jma_knowledge.cpp:865-875 | `getOccupiedBytes` shifts `val` right by 4 bits per turn. It counts nibbles beyond the first byte rather than bytes, so `addSentenceSeparator` files two-byte values from 0x1000 up in bucket 3, while `isSentenceSeparator` looks them up in bucket 2 | `addSentenceSeparator(0x8140)`, the Shift-JIS ideographic space. It goes into bucket 3, and `isSentenceSeparator` on that character then answers false | shift by 8 bits, so that the count is the value's width in whole bytes, the width the lookup uses | not executed | Separators.AddTwoByteSeparatorMisfiled | Separators.AddSeparatorByByteFound |

The class method `AddSentenceSeparator` keeps the behaviour as written. The
corrected `AddSeparatorByByte` is proved to make every added character
findable. The separator loader is not affected: it files each line by the
byte count of its first character, and `LoadedLineIsSeparator` proves those
separators are found.
