/** Byte strings and the small text operations the knowledge layer is built on.
    The analyzer works on `std::string` values, which are byte strings; here a byte
    is a character below 256 so that string literals can be written directly. */
module Text {

  type Byte = c: char | c as int < 256
  type Bytes = seq<Byte>

  datatype Option<+T> = None | Some(value: T)

  /** The characters `isspace` accepts in the C locale. */
  predicate IsSpace(c: Byte)
  {
    c == ' ' || c == '\t' || c == '\n' || c == '\r' || c == '\U{0B}' || c == '\U{0C}'
  }

  predicate AllSpace(s: Bytes)
  {
    forall i :: 0 <= i < |s| ==> IsSpace(s[i])
  }

  /** `s.find(c)`: the first index holding `c`, or None for `npos`. */
  function FindFirst(s: Bytes, c: Byte): (r: Option<nat>)
    ensures r.Some? ==> r.value < |s| && s[r.value] == c && c !in s[..r.value]
    ensures r.None? ==> c !in s
  {
    if s == [] then None
    else if s[0] == c then Some(0)
    else match FindFirst(s[1..], c)
      case None => None
      case Some(j) => assert s[1..][..j] == s[1..j + 1]; Some(j + 1)
  }

  lemma {:induction false} FindFirstAt(s: Bytes, c: Byte, pos: nat)
    requires pos < |s| && s[pos] == c && c !in s[..pos]
    ensures FindFirst(s, c) == Some(pos)
  {
    if pos > 0 {
      assert s[..pos][0] == s[0];
      assert s[1..][..pos - 1] == s[1..pos];
      FindFirstAt(s[1..], c, pos - 1);
    }
  }

  /** The byte at index `i` of a NUL-terminated buffer whose content is `p`:
      reading at or past the end yields the terminator 0. */
  function ByteAt(p: Bytes, i: nat): (r: nat)
    ensures r < 256
  {
    if i < |p| then p[i] as nat else 0
  }

  /** The number of bytes before the first NUL of the buffer holding `p`. */
  function NonNulLength(p: Bytes): (r: nat)
    ensures r <= |p|
    ensures forall i :: 0 <= i < r ==> p[i] as nat != 0
    ensures r < |p| ==> p[r] as nat == 0
  {
    if p == [] || p[0] as nat == 0 then 0 else 1 + NonNulLength(p[1..])
  }

  /** A line as the loaders see it: the text before the first carriage return. */
  function CutAtCR(line: Bytes): (r: Bytes)
    ensures r <= line && '\r' !in r
    ensures r == line || line[|r|] == '\r'
    ensures '\r' !in line ==> r == line
  {
    match FindFirst(line, '\r')
    case None => line
    case Some(k) => line[..k]
  }

  /** The first index from `i` on that does not hold whitespace, or `|s|`. */
  function SkipSpaces(s: Bytes, i: nat): (r: nat)
    requires i <= |s|
    ensures i <= r <= |s|
    ensures forall k :: i <= k < r ==> IsSpace(s[k])
    ensures r < |s| ==> !IsSpace(s[r])
    decreases |s| - i
  {
    if i == |s| || !IsSpace(s[i]) then i else SkipSpaces(s, i + 1)
  }

  /** The end of `s[..j]` once its trailing whitespace is dropped. */
  function DropTrailingSpaces(s: Bytes, j: nat): (r: nat)
    requires j <= |s|
    ensures r <= j
    ensures forall k :: r <= k < j ==> IsSpace(s[k])
    ensures r > 0 ==> !IsSpace(s[r - 1])
  {
    if j == 0 || !IsSpace(s[j - 1]) then j else DropTrailingSpaces(s, j - 1)
  }

  lemma {:induction false} SkipSpacesAt(s: Bytes, i: nat, k: nat)
    requires i <= k <= |s|
    requires forall j :: i <= j < k ==> IsSpace(s[j])
    requires k < |s| ==> !IsSpace(s[k])
    ensures SkipSpaces(s, i) == k
    decreases k - i
  {
    if i < k {
      SkipSpacesAt(s, i + 1, k);
    }
  }

  lemma {:induction false} DropTrailingSpacesAt(s: Bytes, j: nat, k: nat)
    requires k <= j <= |s|
    requires forall i :: k <= i < j ==> IsSpace(s[i])
    requires k > 0 ==> !IsSpace(s[k - 1])
    ensures DropTrailingSpaces(s, j) == k
    decreases j - k
  {
    if k < j {
      DropTrailingSpacesAt(s, j - 1, k);
    }
  }

  lemma TakeDrop<T>(s: seq<T>, i: nat)
    requires i <= |s|
    ensures s[..i] + s[i..] == s
  {
  }

  lemma SliceSnoc<T>(s: seq<T>, i: nat, j: nat)
    requires i < j <= |s|
    ensures s[i..j] == s[i..j - 1] + [s[j - 1]]
  {
  }

  lemma SplitAround<T>(s: seq<T>, j: nat)
    requires j < |s|
    ensures s == s[..j] + [s[j]] + s[j + 1..]
  {
  }

  lemma SliceOfDrop<T>(s: seq<T>, n: nat, i: nat, j: nat)
    requires n <= |s| && i <= j <= |s| - n
    ensures s[n..][i..j] == s[n + i..n + j]
  {
  }

  lemma PrefixSnoc<T>(s: seq<T>, i: nat)
    requires i < |s|
    ensures s[..i + 1] == s[..i] + [s[i]]
  {
  }

  /** Concatenation of the parts with no separator. */
  function Concat(parts: seq<Bytes>): Bytes
  {
    if parts == [] then [] else parts[0] + Concat(parts[1..])
  }

  /** The parts joined with `sep` between neighbours. */
  function Join(parts: seq<Bytes>, sep: Byte): Bytes
  {
    if parts == [] then []
    else if |parts| == 1 then parts[0]
    else parts[0] + [sep] + Join(parts[1..], sep)
  }

  /** The number of occurrences of `c` in `s`. */
  function Occurrences(s: Bytes, c: Byte): nat
  {
    if s == [] then 0 else (if s[0] == c then 1 else 0) + Occurrences(s[1..], c)
  }

  /** `n` copies of `s`. */
  function Repeat(s: Bytes, n: int): (r: Bytes)
    decreases n
  {
    if n <= 0 then [] else s + Repeat(s, n - 1)
  }

  lemma {:induction false} RepeatAppend(s: Bytes, n: int)
    requires n >= 0
    ensures Repeat(s, n) + s == Repeat(s, n + 1)
    decreases n
  {
    if n > 0 {
      RepeatAppend(s, n - 1);
      assert Repeat(s, n) + s == s + (Repeat(s, n - 1) + s);
    }
  }

  lemma {:induction false} ConcatAppend(parts: seq<Bytes>, last: Bytes)
    ensures Concat(parts + [last]) == Concat(parts) + last
  {
    if parts != [] {
      assert (parts + [last])[1..] == parts[1..] + [last];
      ConcatAppend(parts[1..], last);
    }
  }

  lemma {:induction false} ConcatSplit(parts: seq<Bytes>, k: nat)
    requires k <= |parts|
    ensures Concat(parts) == Concat(parts[..k]) + Concat(parts[k..])
  {
    if k > 0 {
      assert parts[..k][1..] == parts[1..][..k - 1];
      assert parts[k..] == parts[1..][k - 1..];
      ConcatSplit(parts[1..], k - 1);
    }
  }

  lemma {:induction false} OccurrencesAppend(a: Bytes, b: Bytes, c: Byte)
    ensures Occurrences(a + b, c) == Occurrences(a, c) + Occurrences(b, c)
  {
    if a == [] {
      assert a + b == b;
    } else {
      assert (a + b)[1..] == a[1..] + b;
      OccurrencesAppend(a[1..], b, c);
    }
  }

  lemma {:induction false} OccurrencesAbsent(s: Bytes, c: Byte)
    requires c !in s
    ensures Occurrences(s, c) == 0
  {
    if s != [] {
      OccurrencesAbsent(s[1..], c);
    }
  }

  lemma {:induction false} RepeatAbsent(s: Bytes, n: int, c: Byte)
    requires c !in s
    ensures c !in Repeat(s, n)
    decreases n
  {
    if n > 0 {
      RepeatAbsent(s, n - 1, c);
    }
  }

  lemma {:induction false} ConcatAbsent(parts: seq<Bytes>, c: Byte)
    requires forall i :: 0 <= i < |parts| ==> c !in parts[i]
    ensures c !in Concat(parts)
  {
    if parts != [] {
      ConcatAbsent(parts[1..], c);
    }
  }
}
