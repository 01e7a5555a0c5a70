/** The pieces of Rust's standard library that `Mac::from_str` is built from,
    modelled from their documented behaviour: ASCII hex digits
    (`char::to_digit(16)`), splitting a string slice on a separator
    (`str::split`), parsing an unsigned 8-bit integer in base 16
    (`u8::from_str_radix`) and collecting an iterator of results into
    `Result<Vec<u8>, _>`. `ToAsciiLower` (`char::to_ascii_lowercase`) is not
    used by the parser; it is here only to state that the parser ignores
    case. */
module RustStd {

  /** Rust's `u8`. */
  type Byte = x: int | 0 <= x < 0x100

  datatype Option<+T> = None | Some(value: T)

  // ---------------------------------------------------------------------
  // Hex digits and ASCII case
  // ---------------------------------------------------------------------

  /** The characters `[0-9A-Fa-f]`, i.e. those `to_digit(16)` accepts. */
  predicate IsHexDigit(c: char) {
    ('0' <= c <= '9') || ('a' <= c <= 'f') || ('A' <= c <= 'F')
  }

  /** `c.to_digit(16)` for a hex digit. */
  function HexVal(c: char): (v: nat)
    requires IsHexDigit(c)
    ensures v < 16
    ensures (v < 10) <==> ('0' <= c <= '9')
  {
    if '0' <= c <= '9' then c as int - '0' as int
    else if 'a' <= c <= 'f' then c as int - 'a' as int + 10
    else c as int - 'A' as int + 10
  }

  /** The value of the two-digit hex numeral `hi lo`. */
  function HexPairValue(hi: char, lo: char): (b: Byte)
    requires IsHexDigit(hi) && IsHexDigit(lo)
    ensures b / 16 == HexVal(hi) && b % 16 == HexVal(lo)
  {
    16 * HexVal(hi) + HexVal(lo)
  }

  /** The lower-case digit for a value below 16; the inverse of `HexVal`. */
  function LowerHexDigit(v: nat): (c: char)
    requires v < 16
    ensures IsHexDigit(c) && HexVal(c) == v
    ensures !('A' <= c <= 'Z')
  {
    if v < 10 then ('0' as int + v) as char else ('a' as int + v - 10) as char
  }

  /** `char::to_ascii_lowercase`. */
  function ToAsciiLower(c: char): char {
    if 'A' <= c <= 'Z' then (c as int + 32) as char else c
  }

  /** Two characters that fold to the same lower-case character are both hex
      digits, with the same value, or neither is; and a colon is the only
      character that folds to a colon. */
  lemma HexDigitIgnoresCase(c: char, d: char)
    requires ToAsciiLower(c) == ToAsciiLower(d)
    ensures IsHexDigit(c) <==> IsHexDigit(d)
    ensures IsHexDigit(c) ==> HexVal(c) == HexVal(d)
    ensures (c == ':') <==> (d == ':')
  {
  }

  // ---------------------------------------------------------------------
  // str::split
  // ---------------------------------------------------------------------

  /** `s.split(sep)`: the maximal runs of `s` free of `sep`, in order,
      empty runs included, so there is always at least one segment. */
  function Split(s: string, sep: char): (r: seq<string>)
    ensures |r| >= 1
    decreases |s|
  {
    if |s| == 0 then [""]
    else
      var rest := Split(s[1..], sep);
      if s[0] == sep then [""] + rest
      else [[s[0]] + rest[0]] + rest[1..]
  }

  /** The segments separated by `sep`: the inverse of `Split`. */
  function Join(segs: seq<string>, sep: char): string
    requires |segs| >= 1
    decreases |segs|
  {
    if |segs| == 1 then segs[0] else segs[0] + [sep] + Join(segs[1..], sep)
  }

  /** Splitting loses nothing: the segments hold no separator and joining
      them back gives the original string. */
  lemma {:induction false} JoinSplit(s: string, sep: char)
    ensures Join(Split(s, sep), sep) == s
    ensures forall k :: 0 <= k < |Split(s, sep)| ==> sep !in Split(s, sep)[k]
    decreases |s|
  {
    if |s| > 0 {
      var rest := Split(s[1..], sep);
      JoinSplit(s[1..], sep);
      if s[0] == sep {
        assert Split(s, sep) == [""] + rest;
        assert ([""] + rest)[1..] == rest;
      } else {
        var r := Split(s, sep);
        assert r == [[s[0]] + rest[0]] + rest[1..];
        if |rest| == 1 {
          assert r == [[s[0]] + rest[0]];
        } else {
          assert r[1..] == rest[1..];
          assert Join(rest, sep) == rest[0] + [sep] + Join(rest[1..], sep);
        }
        forall k | 0 <= k < |r| ensures sep !in r[k] {
          if k == 0 {
            assert sep !in rest[0];
          } else {
            assert r[k] == rest[k];
          }
        }
      }
    }
  }

  /** A string without the separator is a single segment. */
  lemma {:induction false} SplitWithoutSep(seg: string, sep: char)
    requires sep !in seg
    ensures Split(seg, sep) == [seg]
    decreases |seg|
  {
    if |seg| > 0 {
      SplitWithoutSep(seg[1..], sep);
      assert [seg[0]] + seg[1..] == seg;
    }
  }

  /** A separator-free prefix followed by the separator is the first segment. */
  lemma {:induction false} SplitAfterSegment(seg: string, sep: char, t: string)
    requires sep !in seg
    ensures Split(seg + [sep] + t, sep) == [seg] + Split(t, sep)
    decreases |seg|
  {
    var s := seg + [sep] + t;
    if |seg| == 0 {
      assert s == [sep] + t;
      assert s[1..] == t;
    } else {
      assert s[1..] == seg[1..] + [sep] + t;
      SplitAfterSegment(seg[1..], sep, t);
      assert [seg[0]] + seg[1..] == seg;
    }
  }

  // ---------------------------------------------------------------------
  // u8::from_str_radix(_, 16)
  // ---------------------------------------------------------------------

  /** The digit loop of `from_str_radix`: for each character, fail unless
      it is a hex digit, then multiply the running value by 16 and add the
      digit, failing as soon as the value no longer fits in a `u8`. */
  function AccumulateHexDigits(d: string, acc: Byte): Option<Byte>
    decreases |d|
  {
    if |d| == 0 then Some(acc)
    else if !IsHexDigit(d[0]) then None
    else if 16 * acc + HexVal(d[0]) >= 0x100 then None
    else AccumulateHexDigits(d[1..], 16 * acc + HexVal(d[0]))
  }

  /** `u8::from_str_radix(e, 16)`, with every error kind folded into `None`:
      an empty string fails, a leading `+` is skipped, a sign with no digits
      after it fails, and the rest must pass the digit loop. */
  function ParseHexByte(e: string): Option<Byte> {
    if |e| == 0 then None
    else
      var digits := if e[0] == '+' then e[1..] else e;
      if |digits| == 0 then None else AccumulateHexDigits(digits, 0)
  }

  /** A two-digit segment always converts, to `16 * high + low`. */
  lemma ParseHexPair(e: string)
    requires |e| == 2 && IsHexDigit(e[0]) && IsHexDigit(e[1])
    ensures ParseHexByte(e) == Some(HexPairValue(e[0], e[1]))
  {
    var h := HexPairValue(e[0], e[1]);
    assert AccumulateHexDigits(e[1..][1..], h) == Some(h);
    assert AccumulateHexDigits(e[1..], HexVal(e[0])) == Some(h);
  }

  // ---------------------------------------------------------------------
  // .map(|e| u8::from_str_radix(e, 16)).collect::<Result<Vec<_>, _>>()
  // ---------------------------------------------------------------------

  /** Converts every segment in order; the first failure makes the whole
      collection fail. */
  function CollectHexBytes(segs: seq<string>): (r: Option<seq<Byte>>)
    ensures r.Some? ==> |r.value| == |segs|
    decreases |segs|
  {
    if |segs| == 0 then Some([])
    else
      match ParseHexByte(segs[0])
      case None => None
      case Some(b) =>
        match CollectHexBytes(segs[1..])
        case None => None
        case Some(rest) => Some([b] + rest)
  }

  /** Collecting succeeds with `vals` exactly when every segment converts,
      segment `i` to `vals[i]`. */
  lemma {:induction false} CollectHexBytesSpec(segs: seq<string>, vals: seq<Byte>)
    ensures CollectHexBytes(segs) == Some(vals) <==>
      |vals| == |segs| && forall i :: 0 <= i < |segs| ==> ParseHexByte(segs[i]) == Some(vals[i])
    decreases |segs|
  {
    if |segs| > 0 && |vals| == |segs| {
      CollectHexBytesSpec(segs[1..], vals[1..]);
      if forall i :: 0 <= i < |segs| ==> ParseHexByte(segs[i]) == Some(vals[i]) {
        assert forall i :: 0 <= i < |segs| - 1 ==> segs[1..][i] == segs[i + 1];
        assert vals == [vals[0]] + vals[1..];
      }
      if CollectHexBytes(segs) == Some(vals) {
        forall i | 0 <= i < |segs| ensures ParseHexByte(segs[i]) == Some(vals[i]) {
          if i > 0 {
            assert segs[i] == segs[1..][i - 1];
          }
        }
      }
    }
  }
}
