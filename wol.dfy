/** Wake-on-LAN: parsing a textual MAC address and building the magic
    packet (a sync stream of six 0xFF bytes followed by sixteen copies of
    the six-byte MAC) that wakes the machine owning that address. */
module Wol {
  import opened RustStd

  datatype WolError = InvalidBufferLength | InvalidPacketSize

  datatype ParseError = FailedConversion | InvalidInput | InvalidLength

  datatype Result<+T, +E> = Ok(value: T) | Err(error: E)

  // ---------------------------------------------------------------------
  // Mac
  // ---------------------------------------------------------------------

  /** A MAC address: six octets, in transmission order. */
  datatype Mac = Mac(b0: Byte, b1: Byte, b2: Byte, b3: Byte, b4: Byte, b5: Byte)
  {
    /** `Mac::new`: the tuple's components become the octets in order. */
    static function New(a: (Byte, Byte, Byte, Byte, Byte, Byte)): Mac {
      Mac(a.0, a.1, a.2, a.3, a.4, a.5)
    }

    /** `Mac::as_bytes`: the octets as a six-byte array, in declaration order. */
    function AsBytes(): (r: seq<Byte>)
      ensures |r| == 6
    {
      [b0, b1, b2, b3, b4, b5]
    }
  }

  /** `Mac::new` keeps the order of the tuple, as seen through `as_bytes`. */
  lemma NewAsBytes(a: (Byte, Byte, Byte, Byte, Byte, Byte))
    ensures Mac.New(a).AsBytes() == [a.0, a.1, a.2, a.3, a.4, a.5]
  {
  }

  /** `as_bytes` loses nothing: two MACs with the same bytes are equal. */
  lemma AsBytesInjective(m: Mac, n: Mac)
    requires m.AsBytes() == n.AsBytes()
    ensures m == n
  {
  }

  // ---------------------------------------------------------------------
  // The accepted language ^([0-9A-Fa-f]{2}:){5}([0-9A-Fa-f]{2})$
  // ---------------------------------------------------------------------

  /** Two hex digits at indices `i` and `i + 1`. */
  predicate HexPairAt(s: string, i: nat)
    requires i + 1 < |s|
  {
    IsHexDigit(s[i]) && IsHexDigit(s[i + 1])
  }

  /** The strings the anchored MAC pattern matches: 17 characters, colons at
      indices 2, 5, 8, 11 and 14, and a hex digit at every other index. */
  predicate MacPattern(s: string) {
    |s| == 17 &&
    HexPairAt(s, 0) && s[2] == ':' && HexPairAt(s, 3) && s[5] == ':' &&
    HexPairAt(s, 6) && s[8] == ':' && HexPairAt(s, 9) && s[11] == ':' &&
    HexPairAt(s, 12) && s[14] == ':' && HexPairAt(s, 15)
  }

  /** The pattern read the way the regular expression is written: `n`
      repetitions of the group `[0-9A-Fa-f]{2}:`, then a final
      `[0-9A-Fa-f]{2}`, with nothing before or after. */
  ghost predicate GroupsThenPair(s: string, n: nat)
    decreases n
  {
    if n == 0 then |s| == 2 && HexPairAt(s, 0)
    else |s| >= 3 && HexPairAt(s, 0) && s[2] == ':' && GroupsThenPair(s[3..], n - 1)
  }

  /** `n + 1` hex pairs separated by colons, stated by position: length
      `3 * n + 2`, a colon wherever `i % 3 == 2`, a hex digit elsewhere. */
  ghost predicate ColonSeparatedPairs(s: string, n: nat) {
    |s| == 3 * n + 2 &&
    forall i :: 0 <= i < |s| ==> if i % 3 == 2 then s[i] == ':' else IsHexDigit(s[i])
  }

  /** For any number `n` of repeated groups, the regular expression read
      group by group and the positional form accept the same strings. */
  lemma {:induction false} ColonSeparatedPairsIsGroups(s: string, n: nat)
    ensures ColonSeparatedPairs(s, n) <==> GroupsThenPair(s, n)
    decreases n
  {
    if n > 0 && |s| >= 3 {
      var t := s[3..];
      ColonSeparatedPairsIsGroups(t, n - 1);
      if ColonSeparatedPairs(s, n) {
        forall i | 0 <= i < |t| ensures if i % 3 == 2 then t[i] == ':' else IsHexDigit(t[i]) {
          assert t[i] == s[i + 3];
          assert (i + 3) % 3 == i % 3;
        }
      }
      if GroupsThenPair(s, n) {
        forall i | 0 <= i < |s| ensures if i % 3 == 2 then s[i] == ':' else IsHexDigit(s[i]) {
          if i >= 3 {
            assert s[i] == t[i - 3];
            assert (i - 3) % 3 == i % 3;
          }
        }
      }
    }
  }

  /** The pattern predicate is exactly the regular expression's language,
      and exactly "a colon at every third index, hex digits elsewhere". */
  lemma MacPatternIsRegex(s: string)
    ensures MacPattern(s) <==> GroupsThenPair(s, 5)
    ensures MacPattern(s) <==> ColonSeparatedPairs(s, 5)
  {
  }

  // ---------------------------------------------------------------------
  // Mac::from_str
  // ---------------------------------------------------------------------

  /** The value of the hex pair starting at index `i`. */
  function PairValue(s: string, i: nat): (b: Byte)
    requires i + 1 < |s| && HexPairAt(s, i)
  {
    HexPairValue(s[i], s[i + 1])
  }

  /** The MAC a pattern-matching string denotes: its six pairs, in textual order. */
  function MacOfText(s: string): Mac
    requires MacPattern(s)
  {
    Mac(PairValue(s, 0), PairValue(s, 3), PairValue(s, 6),
        PairValue(s, 9), PairValue(s, 12), PairValue(s, 15))
  }

  /** `<Mac as FromStr>::from_str`: the structural check, then split on `:`,
      convert every segment from base 16 and build the MAC from six values. */
  function FromStr(s: string): Result<Mac, ParseError> {
    if MacPattern(s) then
      match CollectHexBytes(Split(s, ':'))
      case Some(r) =>
        if |r| == 6 then Ok(Mac.New((r[0], r[1], r[2], r[3], r[4], r[5])))
        else Err(InvalidLength)
      case None => Err(FailedConversion)
    else
      Err(InvalidInput)
  }

  /** The segments `split(':')` yields for `n` groups and a final pair. */
  ghost function PairsOf(s: string, n: nat): (r: seq<string>)
    requires GroupsThenPair(s, n)
    ensures |r| == n + 1
    decreases n
  {
    if n == 0 then [s] else [s[..2]] + PairsOf(s[3..], n - 1)
  }

  /** The values of the pairs of `n` groups and a final pair, in order. */
  ghost function ValuesOf(s: string, n: nat): (r: seq<Byte>)
    requires GroupsThenPair(s, n)
    ensures |r| == n + 1
    decreases n
  {
    if n == 0 then [PairValue(s, 0)] else [PairValue(s, 0)] + ValuesOf(s[3..], n - 1)
  }

  /** Splitting a string of the pattern's shape yields exactly its pairs. */
  lemma {:induction false} SplitGroups(s: string, n: nat)
    requires GroupsThenPair(s, n)
    ensures Split(s, ':') == PairsOf(s, n)
    decreases n
  {
    if n == 0 {
      assert s == [s[0], s[1]];
      SplitWithoutSep(s, ':');
    } else {
      SplitGroups(s[3..], n - 1);
      assert s == s[..2] + [':'] + s[3..];
      assert s[..2] == [s[0], s[1]];
      SplitAfterSegment(s[..2], ':', s[3..]);
    }
  }

  /** Every pair converts, so collecting yields the pairs' values. */
  lemma {:induction false} CollectGroups(s: string, n: nat)
    requires GroupsThenPair(s, n)
    ensures CollectHexBytes(PairsOf(s, n)) == Some(ValuesOf(s, n))
    decreases n
  {
    var segs, vals := PairsOf(s, n), ValuesOf(s, n);
    forall i | 0 <= i < |segs| ensures ParseHexByte(segs[i]) == Some(vals[i]) {
      if i == 0 {
        assert s[..2] == [s[0], s[1]];
        assert n == 0 ==> s == s[..2];
        assert segs[0] == s[..2];
        ParseHexPair(s[..2]);
      } else {
        CollectGroups(s[3..], n - 1);
        CollectHexBytesSpec(PairsOf(s[3..], n - 1), ValuesOf(s[3..], n - 1));
        assert segs[i] == PairsOf(s[3..], n - 1)[i - 1];
        assert vals[i] == ValuesOf(s[3..], n - 1)[i - 1];
      }
    }
    CollectHexBytesSpec(segs, vals);
  }

  /** The six values of a pattern-matching string, in textual order. */
  lemma ValuesOfMacPattern(s: string)
    requires MacPattern(s)
    ensures GroupsThenPair(s, 5)
    ensures ValuesOf(s, 5) == [PairValue(s, 0), PairValue(s, 3), PairValue(s, 6),
                              PairValue(s, 9), PairValue(s, 12), PairValue(s, 15)]
  {
  }

  /** What `from_str` computes: a string of the pattern parses to its six
      pairs in textual order, and every other string is rejected with
      exactly `InvalidInput`. */
  lemma FromStrSpec(s: string)
    ensures FromStr(s) == if MacPattern(s) then Ok(MacOfText(s)) else Err(InvalidInput)
  {
    if MacPattern(s) {
      ValuesOfMacPattern(s);
      SplitGroups(s, 5);
      CollectGroups(s, 5);
    }
  }

  /** The two defensive arms are dead: once the structural check passes,
      there are six segments and each converts, so the only error is
      `InvalidInput`. */
  lemma DefensiveArmsUnreachable(s: string)
    ensures FromStr(s) != Err(InvalidLength)
    ensures FromStr(s) != Err(FailedConversion)
    ensures FromStr(s).Err? <==> FromStr(s) == Err(InvalidInput)
  {
    FromStrSpec(s);
  }

  /** Equal up to the case of ASCII letters. */
  predicate SameIgnoringAsciiCase(s: string, t: string) {
    |s| == |t| && forall i :: 0 <= i < |s| ==> ToAsciiLower(s[i]) == ToAsciiLower(t[i])
  }

  /** Changing the case of letters neither makes nor breaks the pattern. */
  lemma MacPatternIgnoresCase(s: string, t: string)
    requires SameIgnoringAsciiCase(s, t)
    ensures MacPattern(s) <==> MacPattern(t)
    ensures MacPattern(s) ==> MacOfText(s) == MacOfText(t)
  {
    forall i | 0 <= i < |s|
      ensures IsHexDigit(s[i]) <==> IsHexDigit(t[i])
      ensures IsHexDigit(s[i]) ==> HexVal(s[i]) == HexVal(t[i])
      ensures s[i] == ':' <==> t[i] == ':'
    {
      HexDigitIgnoresCase(s[i], t[i]);
    }
  }

  /** Hex digits are case-insensitive: changing the case of any letters gives
      the same result, success or failure. */
  lemma FromStrIgnoresCase(s: string, t: string)
    requires SameIgnoringAsciiCase(s, t)
    ensures FromStr(s) == FromStr(t)
  {
    FromStrSpec(s);
    FromStrSpec(t);
    MacPatternIgnoresCase(s, t);
  }

  /** Character `i` of the lower-case text of `m`: octet `i / 3` gives the
      high digit at `i % 3 == 0` and the low digit at `i % 3 == 1`, and a
      colon separates the octets. */
  function MacTextChar(m: Mac, i: nat): char
    requires i < 17
  {
    var b := m.AsBytes()[i / 3];
    if i % 3 == 0 then LowerHexDigit(b / 16)
    else if i % 3 == 1 then LowerHexDigit(b % 16)
    else ':'
  }

  /** The lower-case text of a MAC, in the pattern's form. */
  function MacText(m: Mac): string {
    seq(17, i requires 0 <= i < 17 => MacTextChar(m, i))
  }

  /** The text of a MAC has the pattern's shape and denotes that MAC. */
  lemma MacTextDenotes(m: Mac)
    ensures MacPattern(MacText(m)) && MacOfText(MacText(m)) == m
  {
  }

  /** Every MAC has a text that parses to it, and that text is lower-case. */
  lemma FromStrMacText(m: Mac)
    ensures MacPattern(MacText(m))
    ensures forall i :: 0 <= i < 17 ==> ToAsciiLower(MacText(m)[i]) == MacText(m)[i]
    ensures FromStr(MacText(m)) == Ok(m)
  {
    MacTextDenotes(m);
    FromStrSpec(MacText(m));
  }

  /** A text made of one hex digit repeated in every position parses to the
      MAC whose six octets are that digit doubled. */
  lemma FromStrRepeatedDigit(c: char)
    requires IsHexDigit(c)
    ensures FromStr([c, c, ':', c, c, ':', c, c, ':', c, c, ':', c, c, ':', c, c])
         == Ok(var v := 17 * HexVal(c); Mac(v, v, v, v, v, v))
  {
    FromStrSpec([c, c, ':', c, c, ':', c, c, ':', c, c, ':', c, c, ':', c, c]);
  }

  /** The strings the unit tests accept, and the MACs they denote. */
  lemma FromStrAcceptsOnes()
    ensures FromStr("ff:ff:ff:ff:ff:ff") == Ok(Mac(255, 255, 255, 255, 255, 255))
  {
    var c := 'f';
    assert HexVal(c) == 15;
    FromStrRepeatedDigit(c);
  }

  lemma FromStrAcceptsUpperOnes()
    ensures FromStr("FF:FF:FF:FF:FF:FF") == Ok(Mac(255, 255, 255, 255, 255, 255))
  {
    var c := 'F';
    assert HexVal(c) == 15;
    FromStrRepeatedDigit(c);
  }

  lemma FromStrAcceptsZeros()
    ensures FromStr("00:00:00:00:00:00") == Ok(Mac(0, 0, 0, 0, 0, 0))
  {
    var c := '0';
    assert HexVal(c) == 0;
    FromStrRepeatedDigit(c);
  }

  /** The strings the unit tests reject, each with `InvalidInput`. */
  lemma FromStrRejectsExamples()
    ensures FromStr(":::::") == Err(InvalidInput)
    ensures FromStr("ff:ff:ff:ff:ff:fg") == Err(InvalidInput)
    ensures FromStr("ff:ff:ff:ff:ff:ff:ff") == Err(InvalidInput)
  {
  }

  // ---------------------------------------------------------------------
  // The magic packet
  // ---------------------------------------------------------------------

  /** The synchronisation stream that opens every magic packet. */
  const SyncStream: seq<Byte> := [0xFF, 0xFF, 0xFF, 0xFF, 0xFF, 0xFF]

  /** `n` copies of `p`, one after the other. */
  function Repeat(p: seq<Byte>, n: nat): seq<Byte>
    decreases n
  {
    if n == 0 then [] else Repeat(p, n - 1) + p
  }

  /** The magic packet for `m`: the sync stream, then sixteen copies of its bytes. */
  function MagicPacket(m: Mac): seq<Byte> {
    SyncStream + Repeat(m.AsBytes(), 16)
  }

  /** The layout stated byte by byte: 102 bytes, bytes 0 to 5 are 0xFF, and
      byte `j` from 6 on is octet `(j - 6) % 6` of the MAC. */
  predicate HasMagicLayout(p: seq<Byte>, m: Mac) {
    |p| == 102 &&
    (forall j :: 0 <= j < 6 ==> p[j] == 0xFF) &&
    (forall j :: 6 <= j < 102 ==> p[j] == m.AsBytes()[(j - 6) % 6])
  }

  lemma {:induction false} RepeatAt(p: seq<Byte>, n: nat)
    requires |p| == 6
    ensures |Repeat(p, n)| == 6 * n
    ensures forall j :: 0 <= j < 6 * n ==> Repeat(p, n)[j] == p[j % 6]
    decreases n
  {
    if n > 0 {
      RepeatAt(p, n - 1);
      var r := Repeat(p, n);
      forall j | 0 <= j < 6 * n ensures r[j] == p[j % 6] {
        if j >= 6 * (n - 1) {
          assert r[j] == p[j - 6 * (n - 1)];
          assert j % 6 == j - 6 * (n - 1);
        }
      }
    }
  }

  /** The magic packet is exactly the byte sequence with the magic layout. */
  lemma MagicPacketLayout(m: Mac, p: seq<Byte>)
    ensures p == MagicPacket(m) <==> HasMagicLayout(p, m)
  {
    var q := MagicPacket(m);
    RepeatAt(m.AsBytes(), 16);
    assert HasMagicLayout(q, m) by {
      forall j | 6 <= j < 102 ensures q[j] == m.AsBytes()[(j - 6) % 6] {
        assert q[j] == Repeat(m.AsBytes(), 16)[j - 6];
      }
    }
    if HasMagicLayout(p, m) {
      assert forall j :: 0 <= j < 102 ==> p[j] == q[j];
    }
  }

  lemma {:induction false} RepeatBlock(p: seq<Byte>, n: nat, k: nat, i: nat)
    requires |p| == 6 && k < n && i < 6
    ensures |Repeat(p, n)| == 6 * n
    ensures Repeat(p, n)[6 * k + i] == p[i]
    decreases n
  {
    RepeatAt(p, n - 1);
    if k < n - 1 {
      RepeatBlock(p, n - 1, k, i);
    }
  }

  /** Block `k` of the sixteen copies holds the MAC's octets in order. */
  lemma MagicPacketBlock(m: Mac, k: nat, i: nat)
    requires k < 16 && i < 6
    ensures |MagicPacket(m)| == 102
    ensures MagicPacket(m)[6 + 6 * k + i] == m.AsBytes()[i]
  {
    RepeatBlock(m.AsBytes(), 16, k, i);
  }

  /** Different MACs give different packets. */
  lemma MagicPacketInjective(m: Mac, n: Mac)
    requires MagicPacket(m) == MagicPacket(n)
    ensures m == n
  {
    forall i | 0 <= i < 6 ensures m.AsBytes()[i] == n.AsBytes()[i] {
      MagicPacketBlock(m, 0, i);
      MagicPacketBlock(n, 0, i);
    }
    AsBytesInjective(m, n);
  }

  /** The broadcast MAC gives 102 bytes of 0xFF. */
  lemma MagicPacketOfBroadcast()
    ensures MagicPacket(Mac(255, 255, 255, 255, 255, 255)) == seq(102, _ => 0xFF)
  {
    var m := Mac(255, 255, 255, 255, 255, 255);
    MagicPacketLayout(m, MagicPacket(m));
  }

  /** `build_packet`: start from the six-byte sync stream and append the
      MAC's bytes sixteen times, checking the payload length (6) and the
      final length (102). Both checks always pass, so the result is always
      `Ok` of the magic packet. */
  method BuildPacket(mac: Mac) returns (r: Result<seq<Byte>, WolError>)
    ensures r == Ok(MagicPacket(mac))
    ensures r.Ok? && |r.value| == 102 && HasMagicLayout(r.value, mac)
  {
    var packet: seq<Byte> := SyncStream;
    var payload := mac.AsBytes();
    if |payload| == 6 {
      for k := 0 to 16
        invariant |packet| == 6 + 6 * k
        invariant packet == SyncStream + Repeat(payload, k)
      {
        packet := packet + payload;
      }
    } else {
      return Err(InvalidBufferLength);
    }
    MagicPacketLayout(mac, packet);
    if |packet| == 102 {
      return Ok(packet);
    } else {
      return Err(InvalidPacketSize);
    }
  }

  /** The unit test's end-to-end case: the broadcast MAC's text parses, and
      its packet is 102 bytes of 0xFF. */
  lemma BroadcastTextToPacket()
    ensures FromStr("ff:ff:ff:ff:ff:ff").Ok?
    ensures MagicPacket(FromStr("ff:ff:ff:ff:ff:ff").value) == seq(102, _ => 0xFF)
  {
    FromStrAcceptsOnes();
    MagicPacketOfBroadcast();
  }
}
