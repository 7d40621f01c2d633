/** The `key=value` configuration reader and the dictionary settings taken from
    the `dicrc` file (source/src/jma_knowledge.cpp:348-431). */
module DictConfig {
  import opened Text
  import opened StrUtil
  import opened Knowledge

  const BASE_FORM_OFFSET_DEFAULT: int := 6
  const READ_FORM_OFFSET_DEFAULT: int := 7
  const NORM_FORM_OFFSET_DEFAULT: int := 9
  const USER_NOUN_POS_DEFAULT: Bytes := "N-USER"
  const DEFAULT_CONFIG_ENCODE_TYPE: EncodeType := EucJp

  /** The `dicrc` keys `loadDictConfig` reads. */
  const BASE_FORM_KEY: Bytes := "base-form-feature-offset"
  const READ_FORM_KEY: Bytes := "read-form-feature-offset"
  const NORM_FORM_KEY: Bytes := "norm-form-feature-offset"
  const USER_NOUN_POS_KEY: Bytes := "user-noun-pos"
  const CONFIG_CHARSET_KEY: Bytes := "config-charset"

  /** What one line of a configuration file contributes. */
  datatype ConfigLine = Blank | Entry(key: Bytes, value: Bytes) | Malformed

  /** One line of `loadConfig0`: cut at the first carriage return; empty and
      `;`/`#` lines are skipped; otherwise the text before the first `=` less its
      trailing whitespace is the key and the rest less its leading whitespace the
      value; a line without `=` is a format error. */
  function ClassifyConfigLine(raw: Bytes): ConfigLine
  {
    var line := CutAtCR(raw);
    if line == [] || line[0] == ';' || line[0] == '#' then Blank
    else match FindFirst(line, '=')
      case None => Malformed
      case Some(pos) => Entry(line[..DropTrailingSpaces(line, pos)], line[SkipSpaces(line, pos + 1)..])
  }

  datatype ConfigResult = ConfigResult(ok: bool, entries: map<Bytes, Bytes>)

  /** The lines read into `m` in order: a later pair for a key overwrites an
      earlier one, and the first format error stops the reading with `ok` false,
      leaving the pairs read before it in the map. */
  function ParseConfig(lines: seq<Bytes>, m: map<Bytes, Bytes>): ConfigResult
    decreases |lines|
  {
    if lines == [] then ConfigResult(true, m)
    else match ClassifyConfigLine(lines[0])
      case Blank => ParseConfig(lines[1..], m)
      case Malformed => ConfigResult(false, m)
      case Entry(k, v) => ParseConfig(lines[1..], m[k := v])
  }

  /** `loadConfig0`: `dict` is the configuration file's lines, None when the
      dictionary archive has no such file. The caller's map is passed in and the
      map as the function leaves it is returned. */
  method LoadConfig0(dict: Option<seq<Bytes>>, map0: map<Bytes, Bytes>) returns (ok: bool, m: map<Bytes, Bytes>)
    ensures dict.None? ==> !ok && m == map0
    ensures dict.Some? ==> ConfigResult(ok, m) == ParseConfig(dict.value, map0)
  {
    m := map0;
    if dict.None? {
      return false, m;
    }
    var lines := dict.value;
    var i := 0;
    while i < |lines|
      invariant 0 <= i <= |lines|
      invariant ParseConfig(lines[i..], m) == ParseConfig(lines, map0)
    {
      var entry := ReadConfigLine(lines[i]);
      ParseConfigStep(lines, i, m);
      match entry {
        case Blank =>
        case Malformed =>
          return false, m;
        case Entry(key, value) =>
          m := m[key := value];
      }
      i := i + 1;
    }
    assert lines[i..] == [];
    ok := true;
  }

  /** The body of the line loop of `loadConfig0`, up to the map update. */
  method ReadConfigLine(raw: Bytes) returns (entry: ConfigLine)
    ensures entry == ClassifyConfigLine(raw)
  {
    var line := CutAtCR(raw);
    if line == [] || line[0] == ';' || line[0] == '#' {
      return Blank;
    }
    var found := FindFirst(line, '=');
    if found.None? {
      return Malformed;
    }
    var key, value := SplitAtEquals(line, found.value);
    entry := Entry(key, value);
  }

  /** The scan around the first `=` at `pos`: whitespace is skipped forwards
      from after it and backwards from before it. */
  method SplitAtEquals(line: Bytes, pos: nat) returns (key: Bytes, value: Bytes)
    requires pos < |line|
    ensures key == line[..DropTrailingSpaces(line, pos)]
    ensures value == line[SkipSpaces(line, pos + 1)..]
  {
    var s1 := pos + 1;
    while s1 < |line| && IsSpace(line[s1])
      invariant pos + 1 <= s1 <= |line|
      invariant SkipSpaces(line, s1) == SkipSpaces(line, pos + 1)
    {
      s1 := s1 + 1;
    }
    var s2: int := pos - 1;
    while s2 >= 0 && IsSpace(line[s2])
      invariant -1 <= s2 < pos
      invariant DropTrailingSpaces(line, s2 + 1) == DropTrailingSpaces(line, pos)
    {
      s2 := s2 - 1;
    }
    assert SkipSpaces(line, s1) == s1;
    assert DropTrailingSpaces(line, s2 + 1) == s2 + 1;
    key, value := line[..s2 + 1], line[s1..];
  }

  /** One line of the reading, seen from line `i` on. */
  lemma ParseConfigStep(lines: seq<Bytes>, i: nat, m: map<Bytes, Bytes>)
    requires i < |lines|
    ensures ClassifyConfigLine(lines[i]).Blank? ==> ParseConfig(lines[i..], m) == ParseConfig(lines[i + 1..], m)
    ensures ClassifyConfigLine(lines[i]).Malformed? ==> ParseConfig(lines[i..], m) == ConfigResult(false, m)
    ensures ClassifyConfigLine(lines[i]).Entry? ==>
      var e := ClassifyConfigLine(lines[i]);
      ParseConfig(lines[i..], m) == ParseConfig(lines[i + 1..], m[e.key := e.value])
  {
    assert lines[i..][0] == lines[i];
    assert lines[i..][1..] == lines[i + 1..];
  }

  /** A pair line takes apart exactly: the key is a prefix of the line with no
      `=` and no trailing whitespace, only whitespace stands between it and the
      first `=`, and the value is the rest of the line after the whitespace that
      follows the `=`. */
  lemma ConfigEntryParts(raw: Bytes)
    requires ClassifyConfigLine(raw).Entry?
    ensures var line, e := CutAtCR(raw), ClassifyConfigLine(raw);
      var pos := FindFirst(line, '=').value;
      && |e.key| <= pos && pos < |line| - |e.value|
      && line[..|e.key|] == e.key && line[|line| - |e.value|..] == e.value
      && '=' !in e.key && '\r' !in e.key && '\r' !in e.value
      && (forall k :: |e.key| <= k < pos ==> IsSpace(line[k]))
      && (forall k :: pos < k < |line| - |e.value| ==> IsSpace(line[k]))
      && (e.key != [] ==> !IsSpace(e.key[|e.key| - 1]))
      && (e.value != [] ==> !IsSpace(e.value[0]))
  {
    var line := CutAtCR(raw);
    var pos := FindFirst(line, '=').value;
    var kEnd := DropTrailingSpaces(line, pos);
    assert line[..pos][..kEnd] == line[..kEnd];
  }

  /** A line written as key, whitespace, `=`, whitespace, value reads back as
      that key and value. */
  lemma ClassifyFormattedEntry(key: Bytes, gap1: Bytes, gap2: Bytes, value: Bytes)
    requires '=' !in key && AllSpace(gap1) && AllSpace(gap2)
    requires key == [] || (!IsSpace(key[|key| - 1]) && key[0] != ';' && key[0] != '#')
    requires value == [] || !IsSpace(value[0])
    requires '\r' !in key + gap1 + ['='] + gap2 + value
    ensures ClassifyConfigLine(key + gap1 + ['='] + gap2 + value) == Entry(key, value)
  {
    var head := key + gap1;
    var tail := ['='] + gap2 + value;
    var line := key + gap1 + ['='] + gap2 + value;
    assert line == head + tail;
    KeySide(key, gap1, tail);
    ValueSide(head, gap2, value);
    ClassifyAt(line, |key|, |head|, |head| + 1 + |gap2|);
  }

  /** The key side of a formatted line: no `=` before the gap ends, the gap is
      whitespace, and the key is a prefix ending in a non-space. */
  lemma KeySide(key: Bytes, gap1: Bytes, tail: Bytes)
    requires '=' !in key && AllSpace(gap1) && tail != [] && tail[0] == '='
    requires key == [] || (!IsSpace(key[|key| - 1]) && key[0] != ';' && key[0] != '#')
    ensures var line, pos := key + gap1 + tail, |key| + |gap1|;
      && line[pos] == '=' && '=' !in line[..pos]
      && (forall i :: |key| <= i < pos ==> IsSpace(line[i]))
      && (|key| > 0 ==> !IsSpace(line[|key| - 1]))
      && line[0] != ';' && line[0] != '#'
      && line[..|key|] == key
  {
    var line, pos := key + gap1 + tail, |key| + |gap1|;
    assert line[..pos] == key + gap1;
    assert line[..|key|] == key;
    assert forall i :: |key| <= i < pos ==> line[i] == gap1[i - |key|];
    if key == [] && gap1 != [] {
      assert IsSpace(line[0]);
    }
  }

  /** The value side of a formatted line: after the `=` closing `head` comes
      whitespace and then the value, which starts with a non-space. */
  lemma ValueSide(head: Bytes, gap2: Bytes, value: Bytes)
    requires AllSpace(gap2) && (value == [] || !IsSpace(value[0]))
    ensures var line, vStart := head + ['='] + gap2 + value, |head| + 1 + |gap2|;
      && vStart <= |line|
      && (forall i :: |head| < i < vStart ==> IsSpace(line[i]))
      && (vStart < |line| ==> !IsSpace(line[vStart]))
      && line[vStart..] == value
  {
    var line, vStart := head + ['='] + gap2 + value, |head| + 1 + |gap2|;
    assert forall i :: |head| < i < vStart ==> line[i] == gap2[i - |head| - 1];
    assert line[vStart..] == value;
  }

  /** The line reading in index terms: the key ends at `kEnd`, the first `=` is
      at `pos` and the value starts at `vStart`. */
  lemma ClassifyAt(line: Bytes, kEnd: nat, pos: nat, vStart: nat)
    requires '\r' !in line
    requires kEnd <= pos < vStart <= |line| && line[pos] == '=' && '=' !in line[..pos]
    requires line[0] != ';' && line[0] != '#'
    requires forall i :: kEnd <= i < pos ==> IsSpace(line[i])
    requires forall i :: pos < i < vStart ==> IsSpace(line[i])
    requires kEnd > 0 ==> !IsSpace(line[kEnd - 1])
    requires vStart < |line| ==> !IsSpace(line[vStart])
    ensures ClassifyConfigLine(line) == Entry(line[..kEnd], line[vStart..])
  {
    FindFirstAt(line, '=', pos);
    DropTrailingSpacesAt(line, pos, kEnd);
    SkipSpacesAt(line, pos + 1, vStart);
  }

  /** Reading two runs of lines one after the other is reading them joined. */
  lemma {:induction false} ParseConfigAppend(a: seq<Bytes>, b: seq<Bytes>, m: map<Bytes, Bytes>)
    requires ParseConfig(a, m).ok
    ensures ParseConfig(a + b, m) == ParseConfig(b, ParseConfig(a, m).entries)
    decreases |a|
  {
    if a != [] {
      assert (a + b)[1..] == a[1..] + b;
      match ClassifyConfigLine(a[0]) {
        case Blank => ParseConfigAppend(a[1..], b, m);
        case Entry(k, v) => ParseConfigAppend(a[1..], b, m[k := v]);
      }
    } else {
      assert a + b == b;
    }
  }

  /** A later pair for a key overwrites the earlier value. */
  lemma LaterDuplicateWins(a: seq<Bytes>, line: Bytes, m: map<Bytes, Bytes>)
    requires ParseConfig(a, m).ok && ClassifyConfigLine(line).Entry?
    ensures var e := ClassifyConfigLine(line);
      ParseConfig(a + [line], m) == ConfigResult(true, ParseConfig(a, m).entries[e.key := e.value])
  {
    ParseConfigAppend(a, [line], m);
    var e := ClassifyConfigLine(line);
    assert ParseConfig([line], ParseConfig(a, m).entries) ==
      ParseConfig([line][1..], ParseConfig(a, m).entries[e.key := e.value]);
  }

  /** A format error at line `i` ends the reading in failure, and the map holds
      exactly the pairs of the lines before it. */
  lemma MalformedKeepsEarlierPairs(lines: seq<Bytes>, i: nat, m: map<Bytes, Bytes>)
    requires i < |lines| && ClassifyConfigLine(lines[i]).Malformed?
    requires forall k :: 0 <= k < i ==> !ClassifyConfigLine(lines[k]).Malformed?
    ensures ParseConfig(lines[..i], m).ok
    ensures ParseConfig(lines, m) == ConfigResult(false, ParseConfig(lines[..i], m).entries)
  {
    var before, after := lines[..i], lines[i..];
    WellFormedLinesRead(before, m);
    TakeDrop(lines, i);
    ParseConfigAppend(before, after, m);
    assert after[0] == lines[i];
  }

  /** Lines without a format error are read to the end. */
  lemma {:induction false} WellFormedLinesRead(lines: seq<Bytes>, m: map<Bytes, Bytes>)
    requires forall k :: 0 <= k < |lines| ==> !ClassifyConfigLine(lines[k]).Malformed?
    ensures ParseConfig(lines, m).ok
    decreases |lines|
  {
    if lines != [] {
      var c := ClassifyConfigLine(lines[0]);
      assert !c.Malformed?;
      var rest := lines[1..];
      assert forall k :: 0 <= k < |rest| ==> rest[k] == lines[k + 1];
      WellFormedLinesRead(rest, if c.Blank? then m else m[c.key := c.value]);
    }
  }

  // ---------------------------------------------------------------------------
  // loadDictConfig

  /** The settings `loadDictConfig` takes from the configuration map. */
  datatype DictSettings = DictSettings(
    baseFormOffset: int,
    readFormOffset: int,
    normFormOffset: int,
    userNounPOS: Bytes,
    configEncodeType: EncodeType)

  /** `getMapValue`: the value for `key`, if any. */
  function GetMapValue(m: map<Bytes, Bytes>, key: Bytes): (r: Option<Bytes>)
    ensures r.Some? <==> key in m
    ensures r.Some? ==> r.value == m[key]
  {
    if key in m then Some(m[key]) else None
  }

  /** An offset setting: the default when the key is missing, otherwise the
      converted value, which is 0 when the text is not a whole number. */
  function OffsetSetting(m: map<Bytes, Bytes>, key: Bytes, default: int): (r: int)
    ensures key !in m ==> r == default
    ensures key in m ==> r == ConvertFromStr(m[key])
  {
    match GetMapValue(m, key)
    case None => default
    case Some(v) => ConvertFromStr(v)
  }

  /** The settings read from a configuration map; `decode` is the encoding-name
      lookup `Knowledge::decodeEncodeType`, None standing for an unknown name. */
  function SettingsOf(m: map<Bytes, Bytes>, decode: Bytes -> Option<EncodeType>): (s: DictSettings)
    ensures s.baseFormOffset == OffsetSetting(m, BASE_FORM_KEY, BASE_FORM_OFFSET_DEFAULT)
    ensures s.readFormOffset == OffsetSetting(m, READ_FORM_KEY, READ_FORM_OFFSET_DEFAULT)
    ensures s.normFormOffset == OffsetSetting(m, NORM_FORM_KEY, NORM_FORM_OFFSET_DEFAULT)
    ensures USER_NOUN_POS_KEY in m ==> s.userNounPOS == m[USER_NOUN_POS_KEY]
    ensures USER_NOUN_POS_KEY !in m ==> s.userNounPOS == USER_NOUN_POS_DEFAULT
    ensures CONFIG_CHARSET_KEY in m && decode(m[CONFIG_CHARSET_KEY]).Some? ==>
      s.configEncodeType == decode(m[CONFIG_CHARSET_KEY]).value
    ensures CONFIG_CHARSET_KEY !in m || decode(m[CONFIG_CHARSET_KEY]).None? ==>
      s.configEncodeType == DEFAULT_CONFIG_ENCODE_TYPE
  {
    var charset := match GetMapValue(m, CONFIG_CHARSET_KEY)
      case None => None
      case Some(v) => decode(v);
    DictSettings(
      OffsetSetting(m, BASE_FORM_KEY, BASE_FORM_OFFSET_DEFAULT),
      OffsetSetting(m, READ_FORM_KEY, READ_FORM_OFFSET_DEFAULT),
      OffsetSetting(m, NORM_FORM_KEY, NORM_FORM_OFFSET_DEFAULT),
      match GetMapValue(m, USER_NOUN_POS_KEY) case None => USER_NOUN_POS_DEFAULT case Some(v) => v,
      match charset case None => DEFAULT_CONFIG_ENCODE_TYPE case Some(t) => t)
  }

  /** The map `loadDictConfig` reads: whatever `loadConfig0` left in a fresh
      map, whether or not it succeeded. */
  function LoadedEntries(dicrc: Option<seq<Bytes>>): map<Bytes, Bytes>
  {
    match dicrc
    case None => map[]
    case Some(lines) => ParseConfig(lines, map[]).entries
  }

  /** Without a `dicrc` file every setting takes its default. */
  lemma MissingConfigGivesDefaults(decode: Bytes -> Option<EncodeType>)
    ensures SettingsOf(LoadedEntries(None), decode) ==
      DictSettings(6, 7, 9, "N-USER", EucJp)
  {
  }

  /** A present offset that is not a whole number is 0, not the default. */
  lemma NonNumericOffsetIsZero(m: map<Bytes, Bytes>, key: Bytes, default: int)
    requires key in m && !WholeNumeral(m[key])
    ensures OffsetSetting(m, key, default) == 0
  {
    ConvertNonNumeral(m[key]);
  }

  /** A format error in `dicrc` does not discard the pairs before it: the
      settings are those of the lines above the bad one. */
  lemma MalformedConfigStillApplied(lines: seq<Bytes>, i: nat, decode: Bytes -> Option<EncodeType>)
    requires i < |lines| && ClassifyConfigLine(lines[i]).Malformed?
    requires forall k :: 0 <= k < i ==> !ClassifyConfigLine(lines[k]).Malformed?
    ensures !ParseConfig(lines, map[]).ok
    ensures SettingsOf(LoadedEntries(Some(lines)), decode) ==
      SettingsOf(ParseConfig(lines[..i], map[]).entries, decode)
  {
    MalformedKeepsEarlierPairs(lines, i, map[]);
  }
}
