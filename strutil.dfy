/** The string helpers of the dictionary layer (source/src/jma_knowledge.cpp:84-165
    and `JMA_Knowledge::createFilePath`). */
module StrUtil {
  import opened Text

  const INT_MIN: int := -0x8000_0000
  const INT_MAX: int := 0x7FFF_FFFF

  // ---------------------------------------------------------------------------
  // tokenizeCSV

  /** The components `tokenizeCSV` produces for `s`: the text up to each comma,
      and after the last comma the rest of `s` when it is not empty. */
  function Components(s: Bytes): seq<Bytes>
    decreases |s|
  {
    if s == [] then []
    else match FindFirst(s, ',')
      case None => [s]
      case Some(j) => [s[..j]] + Components(s[j + 1..])
  }

  /** `tokenizeCSV`: the vector is cleared, then filled by scanning for commas. */
  method TokenizeCSV(str: Bytes) returns (compVec: seq<Bytes>)
    ensures compVec == Components(str)
  {
    compVec := [];
    var i := 0;
    while i < |str|
      invariant 0 <= i <= |str|
      invariant compVec + Components(str[i..]) == Components(str)
      decreases |str| - i
    {
      var j := FindFirst(str[i..], ',');
      if j.Some? {
        ghost var done, from := compVec, i;
        compVec := compVec + [str[i..i + j.value]];
        i := i + j.value + 1;
        ComponentsStep(done, from, compVec, Components(str), str, i);
      } else {
        compVec := compVec + [str[i..]];
        i := |str|;
        assert Components(str[i..]) == [];
      }
    }
    assert str[i..] == [];
  }

  /** One step of the scan: the text from `from` up to the next comma is a
      component and the scan resumes after that comma. */
  lemma ComponentsStep(done: seq<Bytes>, from: nat, vec: seq<Bytes>, whole: seq<Bytes>, str: Bytes, next: nat)
    requires from < next <= |str| && FindFirst(str[from..], ',') == Some(next - from - 1)
    requires done + Components(str[from..]) == whole
    requires vec == done + [str[from..next - 1]]
    ensures vec + Components(str[next..]) == whole
  {
    var rest, k := str[from..], next - from - 1;
    var comp, later := str[from..next - 1], Components(str[next..]);
    assert Components(rest) == [comp] + later by {
      assert rest[..k] == comp;
      assert rest[k + 1..] == str[next..];
    }
    assert (done + [comp]) + later == done + ([comp] + later);
  }

  lemma {:induction false} ComponentsHaveNoComma(s: Bytes)
    ensures forall i :: 0 <= i < |Components(s)| ==> ',' !in Components(s)[i]
    decreases |s|
  {
    if s != [] {
      match FindFirst(s, ',') {
        case None =>
        case Some(j) => ComponentsHaveNoComma(s[j + 1..]);
      }
    }
  }

  /** There is a component per comma, plus one for a non-empty tail after the
      last comma; in particular the empty string has no component. */
  lemma {:induction false} ComponentsCount(s: Bytes)
    ensures |Components(s)| == Occurrences(s, ',') + (if s != [] && s[|s| - 1] != ',' then 1 else 0)
    decreases |s|
  {
    if s != [] {
      match FindFirst(s, ',') {
        case None =>
          OccurrencesAbsent(s, ',');
        case Some(j) =>
          var rest := s[j + 1..];
          assert s == s[..j] + [','] + rest;
          OccurrencesAbsent(s[..j], ',');
          OccurrencesAppend(s[..j] + [','], rest, ',');
          OccurrencesAppend(s[..j], [','], ',');
          assert Occurrences([','], ',') == 1;
          ComponentsCount(rest);
          if rest != [] {
            assert rest[|rest| - 1] == s[|s| - 1];
          }
      }
    }
  }

  /** Joining the components with commas gives the input back when it does
      not end with a comma. Empty fields are kept. */
  lemma {:induction false} JoinComponents(s: Bytes)
    requires s != [] && s[|s| - 1] != ','
    ensures Join(Components(s), ',') == s
    decreases |s|
  {
    match FindFirst(s, ',') {
      case None =>
      case Some(j) =>
        var first, rest := s[..j], s[j + 1..];
        SplitAround(s, j);
        assert rest[|rest| - 1] == s[|s| - 1];
        JoinComponents(rest);
        JoinCons(first, Components(rest), ',');
    }
  }

  /** A trailing comma is what `tokenizeCSV` drops: joining the components
      gives the input without it. */
  lemma {:induction false} JoinComponentsTrailingComma(s: Bytes)
    requires s != [] && s[|s| - 1] == ','
    ensures Join(Components(s), ',') + [','] == s
    decreases |s|
  {
    var j := FindFirst(s, ',').value;
    var first, rest := s[..j], s[j + 1..];
    SplitAround(s, j);
    if rest != [] {
      assert rest[|rest| - 1] == s[|s| - 1];
      JoinComponentsTrailingComma(rest);
      TrailingCommaStep(s, first, rest, Components(rest));
    }
  }

  lemma TrailingCommaStep(s: Bytes, first: Bytes, rest: Bytes, parts: seq<Bytes>)
    requires s == first + [','] + rest && parts != []
    requires Join(parts, ',') + [','] == rest
    ensures Join([first] + parts, ',') + [','] == s
  {
    JoinCons(first, parts, ',');
  }

  lemma JoinCons(first: Bytes, parts: seq<Bytes>, sep: Byte)
    requires parts != []
    ensures Join([first] + parts, sep) == first + [sep] + Join(parts, sep)
  {
    assert ([first] + parts)[1..] == parts;
  }

  /** A comma-free field followed by a comma is the first component. */
  lemma ComponentsAfterComma(a: Bytes, b: Bytes)
    requires ',' !in a
    ensures Components(a + [','] + b) == [a] + Components(b)
  {
    var s := a + [','] + b;
    assert s[|a|] == ',';
    assert s[..|a|] == a;
    FindFirstAt(s, ',', |a|);
    assert s[|a| + 1..] == b;
  }

  /** Splitting a comma-joined list of comma-free fields whose last field is not
      empty gives the fields back. */
  lemma {:induction false} ComponentsOfJoin(parts: seq<Bytes>)
    requires |parts| >= 1 && parts[|parts| - 1] != []
    requires forall i :: 0 <= i < |parts| ==> ',' !in parts[i]
    ensures Components(Join(parts, ',')) == parts
    decreases |parts|, 1
  {
    if |parts| == 1 {
      assert Join(parts, ',') == parts[0];
    } else {
      assert parts == [parts[0]] + parts[1..];
      ComponentsOfJoinCons(parts[0], parts[1..]);
    }
  }

  lemma {:induction false} ComponentsOfJoinCons(first: Bytes, rest: seq<Bytes>)
    requires |rest| >= 1 && rest[|rest| - 1] != [] && ',' !in first
    requires forall i :: 0 <= i < |rest| ==> ',' !in rest[i]
    ensures Components(Join([first] + rest, ',')) == [first] + rest
    decreases |rest| + 1, 0
  {
    var tail := Join(rest, ',');
    JoinCons(first, rest, ',');
    ComponentsAfterComma(first, tail);
    ComponentsOfJoin(rest);
  }

  // ---------------------------------------------------------------------------
  // isNumber

  predicate IsDigit(c: Byte)
  {
    '0' <= c <= '9'
  }

  /** A decimal numeral: at least one byte, every byte a digit. */
  predicate IsDecimal(s: Bytes)
  {
    |s| > 0 && forall i :: 0 <= i < |s| ==> IsDigit(s[i])
  }

  /** `isNumber`: scans for a non-digit and rejects the empty string. */
  method IsNumber(str: Bytes) returns (b: bool)
    ensures b == IsDecimal(str)
  {
    var p := 0;
    while p < |str|
      invariant 0 <= p <= |str|
      invariant forall k :: 0 <= k < p ==> IsDigit(str[k])
    {
      if str[p] < '0' || str[p] > '9' {
        return false;
      }
      p := p + 1;
    }
    b := p != 0;
  }

  // ---------------------------------------------------------------------------
  // convertFromStr<int>

  function DigitValue(c: Byte): (r: nat)
    requires IsDigit(c)
    ensures r < 10
  {
    c as int - '0' as int
  }

  /** The value of a string of digits, most significant first. */
  function DigitsValue(s: Bytes): nat
    requires forall i :: 0 <= i < |s| ==> IsDigit(s[i])
  {
    if s == [] then 0 else DigitsValue(s[..|s| - 1]) * 10 + DigitValue(s[|s| - 1])
  }

  /** The length of the run of digits at the start of `s`. */
  function DigitRun(s: Bytes): (r: nat)
    ensures r <= |s|
    ensures forall i :: 0 <= i < r ==> IsDigit(s[i])
    ensures r < |s| ==> !IsDigit(s[r])
  {
    if s == [] || !IsDigit(s[0]) then 0 else 1 + DigitRun(s[1..])
  }

  /** `convertFromStr<int>`: a stream extraction of an `int` that must be
      followed by nothing but whitespace. Leading whitespace and one sign are
      accepted; anything else, or a value outside the 32-bit range, gives the
      default value 0. */
  function ConvertFromStr(str: Bytes): (r: int)
    ensures INT_MIN <= r <= INT_MAX
  {
    ConvertSigned(str[SkipSpaces(str, 0)..])
  }

  /** The extraction after the leading whitespace: at most one sign, then the
      magnitude. */
  function ConvertSigned(t: Bytes): (r: int)
    ensures INT_MIN <= r <= INT_MAX
  {
    if |t| > 0 && (t[0] == '-' || t[0] == '+') then ConvertMagnitude(t[1..], t[0] == '-')
    else ConvertMagnitude(t, false)
  }

  /** The run of digits at the front of `u`, negated when `negative`; at least
      one digit, only whitespace after it and a value in range, or else 0. */
  function ConvertMagnitude(u: Bytes, negative: bool): (r: int)
    ensures INT_MIN <= r <= INT_MAX
  {
    var n := DigitRun(u);
    var magnitude := DigitsValue(u[..n]);
    var v: int := if negative then 0 - magnitude as int else magnitude;
    if n == 0 || !AllSpace(u[n..]) || v < INT_MIN || v > INT_MAX then 0 else v
  }

  /** A decimal numeral converts to its value, or to 0 when it overflows `int`. */
  lemma ConvertDecimal(s: Bytes)
    requires IsDecimal(s)
    ensures ConvertFromStr(s) == if DigitsValue(s) <= INT_MAX then DigitsValue(s) else 0
  {
    assert !IsSpace(s[0]);
    assert SkipSpaces(s, 0) == 0;
    assert s[0..] == s;
    assert !(s[0] == '-' || s[0] == '+');
    assert DigitRun(s) == |s|;
    assert s[..|s|] == s;
    assert AllSpace(s[|s|..]);
  }

  /** The parts of a whole number as a stream reads it: leading whitespace,
      at most one sign, a decimal numeral and trailing whitespace. */
  predicate NumeralParts(lead: Bytes, sign: Bytes, digits: Bytes, trail: Bytes)
  {
    AllSpace(lead) && (sign == [] || sign == ['-'] || sign == ['+']) && IsDecimal(digits) && AllSpace(trail)
  }

  /** `s` is a whole number: it splits into the parts of one. */
  ghost predicate WholeNumeral(s: Bytes)
  {
    exists lead, sign, digits, trail :: NumeralParts(lead, sign, digits, trail) && s == lead + sign + digits + trail
  }

  /** The value the sign and the digits stand for. */
  function SignedValue(sign: Bytes, digits: Bytes): int
    requires IsDecimal(digits)
  {
    if sign == ['-'] then 0 - DigitsValue(digits) as int else DigitsValue(digits)
  }

  lemma {:induction false} DigitRunOf(digits: Bytes, rest: Bytes)
    requires forall i :: 0 <= i < |digits| ==> IsDigit(digits[i])
    requires rest == [] || !IsDigit(rest[0])
    ensures DigitRun(digits + rest) == |digits|
  {
    if digits != [] {
      assert (digits + rest)[1..] == digits[1..] + rest;
      DigitRunOf(digits[1..], rest);
    } else {
      assert digits + rest == rest;
    }
  }

  lemma SkipLead(lead: Bytes, rest: Bytes)
    requires AllSpace(lead) && (rest == [] || !IsSpace(rest[0]))
    ensures ConvertFromStr(lead + rest) == ConvertSigned(rest)
  {
    var s := lead + rest;
    assert forall j :: 0 <= j < |lead| ==> s[j] == lead[j];
    assert rest != [] ==> s[|lead|] == rest[0];
    SkipSpacesAt(s, 0, |lead|);
    assert s[|lead|..] == rest;
  }

  lemma MagnitudeOf(digits: Bytes, trail: Bytes, negative: bool)
    requires IsDecimal(digits) && AllSpace(trail)
    ensures var v := if negative then 0 - DigitsValue(digits) as int else DigitsValue(digits);
      ConvertMagnitude(digits + trail, negative) == if INT_MIN <= v <= INT_MAX then v else 0
  {
    var u := digits + trail;
    DigitRunOf(digits, trail);
    assert u[..|digits|] == digits && u[|digits|..] == trail;
  }

  lemma SignStep(sign: Bytes, u: Bytes)
    requires sign == [] || sign == ['-'] || sign == ['+']
    requires sign == [] ==> u == [] || IsDigit(u[0])
    ensures ConvertSigned(sign + u) == ConvertMagnitude(u, sign == ['-'])
  {
    if sign != [] {
      assert (sign + u)[1..] == u;
    } else {
      assert sign + u == u;
    }
  }

  /** A whole number converts to its signed value, or to 0 when that value
      is outside the 32-bit `int` range. */
  lemma ConvertNumeral(lead: Bytes, sign: Bytes, digits: Bytes, trail: Bytes)
    requires NumeralParts(lead, sign, digits, trail)
    ensures var v := SignedValue(sign, digits);
      ConvertFromStr(lead + sign + digits + trail) == if INT_MIN <= v <= INT_MAX then v else 0
  {
    var u := digits + trail;
    var rest := sign + u;
    assert lead + sign + digits + trail == lead + rest;
    assert u[0] == digits[0];
    assert rest[0] == if sign == [] then u[0] else sign[0];
    SkipLead(lead, rest);
    SignStep(sign, u);
    MagnitudeOf(digits, trail, sign == ['-']);
  }

  /** Anything that is not a whole number converts to the default 0: no digit,
      a fraction, trailing text, a second sign. */
  lemma ConvertNonNumeral(s: Bytes)
    ensures !WholeNumeral(s) ==> ConvertFromStr(s) == 0
  {
    var b := SkipSpaces(s, 0);
    var t := s[b..];
    assert AllSpace(s[..b]) by {
      assert forall k :: 0 <= k < b ==> s[..b][k] == s[k];
    }
    if |t| > 0 && (t[0] == '-' || t[0] == '+') {
      assert t == t[..1] + t[1..];
      assert t[..1] == ['-'] <==> t[0] == '-';
      NonZeroIsNumeral(s, b, t[..1], t[1..]);
    } else {
      assert t == [] + t;
      NonZeroIsNumeral(s, b, [], t);
    }
  }

  /** What follows the whitespace and the sign converts to 0 unless the whole
      text is a whole number. */
  lemma NonZeroIsNumeral(s: Bytes, b: nat, sign: Bytes, u: Bytes)
    requires b <= |s| && AllSpace(s[..b]) && s[b..] == sign + u
    requires sign == [] || sign == ['-'] || sign == ['+']
    ensures ConvertMagnitude(u, sign == ['-']) != 0 ==> WholeNumeral(s)
  {
    var n := DigitRun(u);
    if n != 0 && AllSpace(u[n..]) {
      TakeDrop(u, n);
      TakeDrop(s, b);
      assert NumeralParts(s[..b], sign, u[..n], u[n..]);
      assert s == s[..b] + sign + u[..n] + u[n..];
    }
  }

  /** Digits followed by text that is neither whitespace nor a digit. */
  lemma TrailingTextIsZero(digits: Bytes, rest: Bytes)
    requires IsDecimal(digits) && rest != [] && !IsSpace(rest[0]) && !IsDigit(rest[0])
    ensures ConvertFromStr(digits + rest) == 0
  {
    SkipLead([], digits + rest);
    assert [] + (digits + rest) == digits + rest;
    assert (digits + rest)[0] == digits[0];
    DigitRunOf(digits, rest);
    assert (digits + rest)[|digits|..] == rest;
  }

  /** The decimal numeral of `n`, most significant digit first. */
  function Decimal(n: nat): (r: Bytes)
    ensures IsDecimal(r)
    ensures r[0] != '0' || n == 0
  {
    var d := ('0' as int + n % 10) as char;
    if n < 10 then [d] else Decimal(n / 10) + [d]
  }

  lemma {:induction false} DigitsValueOfDecimal(n: nat)
    ensures DigitsValue(Decimal(n)) == n
  {
    if n >= 10 {
      DigitsValueOfDecimal(n / 10);
      var r := Decimal(n);
      assert r[..|r| - 1] == Decimal(n / 10);
    }
  }

  /** Printing a value of `int` range and converting it back gives the value. */
  lemma ConvertOfDecimal(n: nat)
    requires n <= INT_MAX
    ensures ConvertFromStr(Decimal(n)) == n
  {
    DigitsValueOfDecimal(n);
    ConvertDecimal(Decimal(n));
  }

  // ---------------------------------------------------------------------------
  // createFilePath

  /** `createFilePath` on a POSIX system: the directory, a `/` unless it is empty
      or already ends with one, then the file name. */
  function CreateFilePath(dir: Bytes, file: Bytes): (r: Bytes)
    ensures |r| == |dir| + |file| || |r| == |dir| + |file| + 1
    ensures dir <= r && r[|r| - |file|..] == file
    ensures |r| == |dir| + |file| + 1 <==> dir != [] && dir[|dir| - 1] != '/'
    ensures dir != [] ==> r[|r| - |file| - 1] == '/'
  {
    if dir != [] && dir[|dir| - 1] != '/' then dir + ['/'] + file else dir + file
  }

  /** Writing the separating slash on a non-empty directory does not change the path. */
  lemma CreateFilePathTrailingSlash(dir: Bytes, file: Bytes)
    requires dir != [] && dir[|dir| - 1] != '/'
    ensures CreateFilePath(dir + ['/'], file) == CreateFilePath(dir, file)
  {
  }
}
