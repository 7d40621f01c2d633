/** The sentence-separator table (source/src/jma_knowledge.cpp:838-919): one
    bucket of packed character values per byte width 1 to 4. */
module Separators {
  import opened Text
  import CTypeSJIS

  /** `seps_`: bucket `w` holds the separators that are `w` bytes wide; bucket 0
      is never used. */
  type Buckets = s: seq<set<bv32>> | |s| == 5 witness [{}, {}, {}, {}, {}]

  const EMPTY_BUCKETS: Buckets := [{}, {}, {}, {}, {}]

  /** The first `w` bytes of the buffer `p`, most significant first, as the
      source builds them with shifts and `|`. */
  function Pack(p: Bytes, w: nat): (r: bv32)
    requires 1 <= w <= 4
    ensures w == 1 ==> r < 0x100
    ensures w == 2 ==> r < 0x1_0000
  {
    var b0, b1, b2, b3 := Widen(p, 0), Widen(p, 1), Widen(p, 2), Widen(p, 3);
    if w == 1 then b0
    else if w == 2 then PackBelow2(b0, b1); (b0 << 8) | b1
    else if w == 3 then (b0 << 16) | (b1 << 8) | b2
    else (b0 << 24) | (b1 << 16) | (b2 << 8) | b3
  }

  /** The byte at index `i` widened to 32 bits, as `uc[i]` is in the shifts. */
  function Widen(p: Bytes, i: nat): (r: bv32)
    ensures r < 0x100
  {
    ByteBelow256(ByteAt(p, i));
    ByteAt(p, i) as bv32
  }

  lemma PackBelow2(b0: bv32, b1: bv32)
    requires b0 < 0x100 && b1 < 0x100
    ensures (b0 << 8) | b1 < 0x1_0000
  {
  }

  /** `isSentenceSeparator(p)`: `bc` is the byte count of the character type in
      use; a width outside 1..4 answers false, as the release build does after
      its failed assertion. */
  predicate IsSeparator(seps: Buckets, p: Bytes, bc: Bytes -> nat)
  {
    var w := bc(p);
    1 <= w <= 4 && Pack(p, w) in seps[w]
  }

  /** A separator as one line of the configuration file gives it. */
  datatype Sep = Sep(width: nat, value: bv32)

  /** The separator a line defines: the line is cut at its first carriage
      return, empty and `#` lines define none, and neither does a first
      character whose width is outside 1..4. */
  function LineSep(raw: Bytes, bc: Bytes -> nat): (r: Option<Sep>)
    ensures r.Some? ==> 1 <= r.value.width <= 4
  {
    var line := CutAtCR(raw);
    if line == [] || line[0] == '#' then None
    else
      var w := bc(line);
      if 1 <= w <= 4 then Some(Sep(w, Pack(line, w))) else None
  }

  function InsertLine(seps: Buckets, raw: Bytes, bc: Bytes -> nat): Buckets
  {
    match LineSep(raw, bc)
    case None => seps
    case Some(s) => seps[s.width := seps[s.width] + {s.value}]
  }

  /** The buckets after reading `lines` in order into `seps`. */
  function LoadSeparators(seps: Buckets, lines: seq<Bytes>, bc: Bytes -> nat): Buckets
    decreases |lines|
  {
    if lines == [] then seps else LoadSeparators(InsertLine(seps, lines[0], bc), lines[1..], bc)
  }

  /** The values the lines define for width `w`. */
  function LoadedValues(lines: seq<Bytes>, w: nat, bc: Bytes -> nat): set<bv32>
  {
    set i | 0 <= i < |lines| && LineSep(lines[i], bc).Some? && LineSep(lines[i], bc).value.width == w
      :: LineSep(lines[i], bc).value.value
  }

  lemma LoadedValuesCons(lines: seq<Bytes>, w: nat, bc: Bytes -> nat)
    requires lines != []
    ensures var s := LineSep(lines[0], bc);
      LoadedValues(lines, w, bc) ==
      (if s.Some? && s.value.width == w then {s.value.value} else {}) + LoadedValues(lines[1..], w, bc)
  {
    var s := LineSep(lines[0], bc);
    var head: set<bv32> := if s.Some? && s.value.width == w then {s.value.value} else {};
    var tail := LoadedValues(lines[1..], w, bc);
    forall v | v in LoadedValues(lines, w, bc) ensures v in head + tail {
      var i :| 0 <= i < |lines| && LineSep(lines[i], bc).Some? && LineSep(lines[i], bc).value.width == w
        && LineSep(lines[i], bc).value.value == v;
      if i > 0 {
        assert lines[1..][i - 1] == lines[i];
      }
    }
    forall v | v in tail ensures v in LoadedValues(lines, w, bc) {
      var i :| 0 <= i < |lines[1..]| && LineSep(lines[1..][i], bc).Some? && LineSep(lines[1..][i], bc).value.width == w
        && LineSep(lines[1..][i], bc).value.value == v;
      assert lines[1..][i] == lines[i + 1];
    }
  }

  /** Loading adds to every bucket exactly the values its lines define for that
      width: nothing loaded earlier is removed and nothing else is added. */
  lemma {:induction false} LoadSeparatorsContents(seps: Buckets, lines: seq<Bytes>, bc: Bytes -> nat, w: nat)
    requires w < 5
    ensures LoadSeparators(seps, lines, bc)[w] == seps[w] + LoadedValues(lines, w, bc)
    decreases |lines|
  {
    if lines == [] {
    } else {
      var next := InsertLine(seps, lines[0], bc);
      LoadSeparatorsContents(next, lines[1..], bc, w);
      LoadedValuesCons(lines, w, bc);
    }
  }

  /** Every character a loaded line starts with is afterwards a separator. */
  lemma LoadedLineIsSeparator(seps: Buckets, lines: seq<Bytes>, bc: Bytes -> nat, i: nat)
    requires i < |lines| && LineSep(lines[i], bc).Some?
    ensures IsSeparator(LoadSeparators(seps, lines, bc), CutAtCR(lines[i]), bc)
  {
    var s := LineSep(lines[i], bc).value;
    LoadSeparatorsContents(seps, lines, bc, s.width);
    assert s.value in LoadedValues(lines, s.width, bc);
  }

  /** Afterwards a character is a separator exactly when it already was or a
      loaded line defines its packed value for its own width. */
  lemma IsSeparatorAfterLoad(seps: Buckets, lines: seq<Bytes>, bc: Bytes -> nat, p: Bytes)
    ensures IsSeparator(LoadSeparators(seps, lines, bc), p, bc) <==>
      IsSeparator(seps, p, bc) || (1 <= bc(p) <= 4 && Pack(p, bc(p)) in LoadedValues(lines, bc(p), bc))
  {
    if 1 <= bc(p) <= 4 {
      LoadSeparatorsContents(seps, lines, bc, bc(p));
    }
  }

  /** Loading the same lines a second time changes nothing. */
  lemma LoadSeparatorsIdempotent(seps: Buckets, lines: seq<Bytes>, bc: Bytes -> nat)
    ensures LoadSeparators(LoadSeparators(seps, lines, bc), lines, bc) == LoadSeparators(seps, lines, bc)
  {
    var once := LoadSeparators(seps, lines, bc);
    var twice := LoadSeparators(once, lines, bc);
    forall w | 0 <= w < 5 ensures twice[w] == once[w] {
      LoadSeparatorsContents(seps, lines, bc, w);
      LoadSeparatorsContents(once, lines, bc, w);
    }
  }

  /** Loading never clears a bucket. */
  lemma LoadSeparatorsKeeps(seps: Buckets, lines: seq<Bytes>, bc: Bytes -> nat, w: nat)
    requires w < 5
    ensures seps[w] <= LoadSeparators(seps, lines, bc)[w]
  {
    LoadSeparatorsContents(seps, lines, bc, w);
  }

  // ---------------------------------------------------------------------------
  // getOccupiedBytes and addSentenceSeparator

  /** `getOccupiedBytes(val)` as written: one, plus one for every 4-bit shift
      needed to bring the value below 0x100. */
  function OccupiedBytes(val: bv32): (r: nat)
    ensures r >= 1
    ensures r == 1 <==> val < 0x100
    decreases val
  {
    if val & 0xffff_ff00 == 0 then 1 else 1 + OccupiedBytes(val >> 4)
  }

  /** The assertion `ret < 4` holds exactly for values below 0x10000. */
  lemma OccupiedBytesBelowFour(val: bv32)
    ensures OccupiedBytes(val) <= 3 <==> val < 0x1_0000
  {
    if val & 0xffff_ff00 != 0 {
      if (val >> 4) & 0xffff_ff00 != 0 {
        assert ((val >> 4) >> 4) & 0xffff_ff00 == 0 <==> val < 0x1_0000;
      } else {
        assert val < 0x1000;
      }
    }
  }

  /** `getOccupiedBytes`: the shift loop. The source asserts that the result is
      below 4, which holds exactly for values below 0x10000. */
  method GetOccupiedBytes(val0: bv32) returns (ret: nat)
    requires val0 < 0x1_0000
    ensures ret == OccupiedBytes(val0)
    ensures 1 <= ret <= 3
  {
    OccupiedBytesBelowFour(val0);
    var val := val0;
    ret := 1;
    while val & 0xffff_ff00 != 0
      invariant ret + OccupiedBytes(val) == OccupiedBytes(val0) + 1
      decreases val
    {
      val := val >> 4;
      ret := ret + 1;
    }
  }

  /** `addSentenceSeparator(val)` as written: the value goes into the bucket
      `getOccupiedBytes` names. */
  function AddSeparator(seps: Buckets, val: bv32): (r: Buckets)
    requires val < 0x1_0000
    ensures r[OccupiedBytes(val)] == seps[OccupiedBytes(val)] + {val}
    ensures forall w :: 0 <= w < 5 && w != OccupiedBytes(val) ==> r[w] == seps[w]
  {
    OccupiedBytesBelowFour(val);
    var w := OccupiedBytes(val);
    seps[w := seps[w] + {val}]
  }

  /** A value of two bytes whose first byte is at least 0x10 is filed in
      bucket 3, not 2. */
  lemma OccupiedBytesTwoByteValue(val: bv32)
    requires 0x1000 <= val < 0x1_0000
    ensures OccupiedBytes(val) == 3
  {
    assert val & 0xffff_ff00 != 0;
    assert (val >> 4) & 0xffff_ff00 != 0;
    assert ((val >> 4) >> 4) & 0xffff_ff00 == 0;
  }

  lemma ByteNotZero(b: nat)
    requires 1 <= b < 256
    ensures 1 <= b as bv32
  {
  }

  lemma ByteAtLeast16(b: nat)
    requires 0x10 <= b < 256
    ensures 0x10 <= b as bv32
  {
  }

  lemma ByteBelow256(b: nat)
    requires b < 256
    ensures b as bv32 < 0x100
  {
  }

  /** The packed value of a character lies in the range of its width: a first
      byte of at least `lead` gives at least `lead` shifted left by the
      remaining bytes. */
  lemma PackRange2(lead: bv32, b0: bv32, b1: bv32)
    requires 1 <= lead <= b0 < 0x100 && b1 < 0x100
    ensures lead << 8 <= (b0 << 8) | b1 < 0x1_0000
  {
  }

  lemma PackRange3(lead: bv32, b0: bv32, b1: bv32, b2: bv32)
    requires 1 <= lead <= b0 < 0x100 && b1 < 0x100 && b2 < 0x100
    ensures lead << 16 <= (b0 << 16) | (b1 << 8) | b2 < 0x100_0000
  {
  }

  lemma PackRange4(lead: bv32, b0: bv32, b1: bv32, b2: bv32, b3: bv32)
    requires 1 <= lead <= b0 < 0x100 && b1 < 0x100 && b2 < 0x100 && b3 < 0x100
    ensures lead << 24 <= (b0 << 24) | (b1 << 16) | (b2 << 8) | b3
  {
  }

  /** So adding a two-byte character whose first byte is at least 0x10 (every
      double-byte SHIFT-JIS and EUC-JP character) leaves the lookup of that
      character unchanged: it was a separator afterwards only if it already was. */
  lemma AddTwoByteSeparatorMisfiled(seps: Buckets, p: Bytes, bc: Bytes -> nat)
    requires bc(p) == 2 && ByteAt(p, 0) >= 0x10
    ensures IsSeparator(AddSeparator(seps, Pack(p, 2)), p, bc) == IsSeparator(seps, p, bc)
  {
    assert 0x10 <= Widen(p, 0) by {
      ByteAtLeast16(ByteAt(p, 0));
    }
    PackRange2(0x10, Widen(p, 0), Widen(p, 1));
    OccupiedBytesTwoByteValue(Pack(p, 2));
  }

  /** The ideographic space 0x8140 of SHIFT-JIS, the first of its double-byte
      punctuation marks, added to empty buckets is not found. */
  lemma IdeographicSpaceNotFound(bc: Bytes -> nat)
    requires bc([0x81 as char, 0x40 as char]) == 2
    ensures Pack([0x81 as char, 0x40 as char], 2) == 0x8140
    ensures !IsSeparator(AddSeparator(EMPTY_BUCKETS, 0x8140), [0x81 as char, 0x40 as char], bc)
  {
    AddTwoByteSeparatorMisfiled(EMPTY_BUCKETS, [0x81 as char, 0x40 as char], bc);
  }

  /** The same for the character type a Shift-JIS session installs: its byte
      count makes the ideographic space two bytes wide, and after adding 0x8140
      it is still not a sentence separator. */
  lemma SjisIdeographicSpaceNotFound()
    ensures CTypeSJIS.GetByteCount([0x81 as char, 0x40 as char]) == 2
    ensures !IsSeparator(AddSeparator(EMPTY_BUCKETS, 0x8140), [0x81 as char, 0x40 as char], CTypeSJIS.ByteCounter)
  {
    IdeographicSpaceNotFound(CTypeSJIS.ByteCounter);
  }

  /** The byte width of a value: the number of bytes up to its highest one
      that is not 0, and 1 for 0. */
  function OccupiedBytesByByte(val: bv32): (r: nat)
    ensures 1 <= r <= 4
    ensures r == 1 <==> val < 0x100
  {
    if val < 0x100 then 1 else if val < 0x1_0000 then 2 else if val < 0x100_0000 then 3 else 4
  }

  /** A character whose first byte is not 0 packs to a value of its own width. */
  lemma OccupiedBytesByByteOfPack(p: Bytes, w: nat)
    requires 1 <= w <= 4 && ByteAt(p, 0) != 0
    ensures OccupiedBytesByByte(Pack(p, w)) == w
  {
    var b0, b1, b2, b3 := Widen(p, 0), Widen(p, 1), Widen(p, 2), Widen(p, 3);
    assert 1 <= b0 by {
      ByteNotZero(ByteAt(p, 0));
    }
    if w == 2 {
      PackRange2(1, b0, b1);
    } else if w == 3 {
      PackRange3(1, b0, b1, b2);
    } else if w == 4 {
      PackRange4(1, b0, b1, b2, b3);
    }
  }

  /** `addSentenceSeparator` with a whole-byte width: the value goes into the
      bucket of its own width. */
  function AddSeparatorByByte(seps: Buckets, val: bv32): (r: Buckets)
    ensures r[OccupiedBytesByByte(val)] == seps[OccupiedBytesByByte(val)] + {val}
    ensures forall w :: 0 <= w < 5 && w != OccupiedBytesByByte(val) ==> r[w] == seps[w]
  {
    var w := OccupiedBytesByByte(val);
    seps[w := seps[w] + {val}]
  }

  /** With the whole-byte width every added character is afterwards a separator. */
  lemma AddSeparatorByByteFound(seps: Buckets, p: Bytes, bc: Bytes -> nat)
    requires 1 <= bc(p) <= 4 && ByteAt(p, 0) != 0
    ensures IsSeparator(AddSeparatorByByte(seps, Pack(p, bc(p))), p, bc)
  {
    OccupiedBytesByByteOfPack(p, bc(p));
  }
}
