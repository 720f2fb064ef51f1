/** Hex-prefix encoding of trie paths: a sequence of nibbles, with a final 16 when it ends in
    a value, packed two nibbles to a byte behind a flag nibble. */
module HexPrefix {
  const TERMINATOR: bv8 := 16

  /** Two nibbles to a byte, in 8-bit arithmetic. */
  function Join(x: bv8, y: bv8): bv8 { (x << 4) | y }
  function High(b: bv8): bv8 { b / 16 }
  function Low(b: bv8): bv8 { b % 16 }

  predicate Odd(flag: bv8) { flag & 1 == 1 }

  predicate HasTerminator(hex: seq<bv8>) { |hex| > 0 && hex[|hex| - 1] == TERMINATOR }

  /** The sequence without its terminator. */
  function Path(hex: seq<bv8>): seq<bv8> { if HasTerminator(hex) then hex[..|hex| - 1] else hex }

  ghost predicate Nibbles(s: seq<bv8>) { forall i :: 0 <= i < |s| ==> s[i] < 16 }

  ghost predicate NibbleString(hex: seq<bv8>) { Nibbles(Path(hex)) }

  // ---------------------------------------------------------------------------
  // The encoding as Appendix C of the Ethereum Yellow Paper defines it
  // ---------------------------------------------------------------------------

  ghost function Pairs(x: seq<bv8>): seq<bv8>
  {
    if |x| < 2 then [] else [16 * x[0] + x[1]] + Pairs(x[2..])
  }

  ghost function Reference(x: seq<bv8>, terminated: bool): seq<bv8>
  {
    var f: bv8 := if terminated then 2 else 0;
    if |x| % 2 == 0 then [16 * f] + Pairs(x) else [16 * (f + 1) + x[0]] + Pairs(x[1..])
  }

  // ---------------------------------------------------------------------------
  // What the two methods compute
  // ---------------------------------------------------------------------------

  ghost function Pack(s: seq<bv8>): seq<bv8>
  {
    seq(|s| / 2, i requires 0 <= i < |s| / 2 => Join(s[2 * i], s[2 * i + 1]))
  }

  ghost function Unpack(c: seq<bv8>): seq<bv8>
  {
    seq(2 * |c|, i requires 0 <= i < 2 * |c| => if i % 2 == 0 then High(c[i / 2]) else Low(c[i / 2]))
  }

  function Flagged(hex: seq<bv8>): seq<bv8>
  {
    var path, t: bv8 := Path(hex), if HasTerminator(hex) then 2 else 0;
    if |path| % 2 == 1 then [t + 1] + path else [t, 0] + path
  }

  ghost function Encoded(hex: seq<bv8>): seq<bv8> { Pack(Flagged(hex)) }

  ghost function Decoded(c: seq<bv8>): seq<bv8>
    requires |c| > 0
  {
    var flag := High(c[0]);
    Unpack(c)[if Odd(flag) then 1 else 2..] + if flag < 2 then [] else [TERMINATOR]
  }

  /** A flag below 4 and, behind an even one, a zero nibble. */
  predicate Canonical(c: seq<bv8>)
  {
    |c| > 0 && High(c[0]) < 4 && (!Odd(High(c[0])) ==> Low(c[0]) == 0)
  }

  method EncodeCompact(hex: seq<bv8>) returns (compact: seq<bv8>)
    ensures compact == Encoded(hex)
    ensures NibbleString(hex) ==> compact == Reference(Path(hex), HasTerminator(hex))
  {
    hide Reference, Nibbles, Pack;
    var h, terminator := hex, 0 as bv8;
    if HasTerminator(hex) {
      h, terminator := hex[..|hex| - 1], 1;
    }
    var odd := |h| % 2;
    var flag: bv8 := 2 * terminator + if odd == 1 then 1 else 0;
    if odd == 1 {
      h := [flag] + h;
    } else {
      h := [flag, 0] + h;
    }
    assert h == Flagged(hex);
    if NibbleString(hex) {
      EncodedIsReference(hex);
    }
    compact := PackNibbles(h);
  }

  /** Packs a sequence of even length. */
  method PackNibbles(h: seq<bv8>) returns (bytes: seq<bv8>)
    ensures bytes == Pack(h)
  {
    hide Join;
    var result := new bv8[|h| / 2];
    var i := 0;
    while i < result.Length
      invariant i <= result.Length && forall k :: 0 <= k < i ==> result[k] == Join(h[2 * k], h[2 * k + 1])
    {
      result[i] := Join(h[2 * i], h[2 * i + 1]);
      i := i + 1;
    }
    return result[..];
  }

  method BytesToHexNibbles(bytes: seq<bv8>) returns (nibbles: seq<bv8>)
    ensures nibbles == Unpack(bytes) + [TERMINATOR]
  {
    var ns := new bv8[2 * |bytes| + 1];
    var i := 0;
    while i < |bytes|
      invariant i <= |bytes| && forall k :: 0 <= k < i ==> ns[2 * k] == High(bytes[k]) && ns[2 * k + 1] == Low(bytes[k])
    {
      ns[2 * i] := High(bytes[i]);
      ns[2 * i + 1] := Low(bytes[i]);
      i := i + 1;
    }
    ns[ns.Length - 1] := TERMINATOR;
    return ns[..];
  }

  /** An empty string has no flag: the slice of the source goes out of bounds. */
  method DecodeCompact(compact: seq<bv8>) returns (hex: seq<bv8>)
    requires |compact| > 0
    ensures hex == Decoded(compact)
  {
    var base := BytesToHexNibbles(compact);
    assert base[0] == High(compact[0]);
    if base[0] < 2 {
      base := base[..|base| - 1];
    }
    if Odd(base[0]) {
      base := base[1..];
    } else {
      base := base[2..];
    }
    return base;
  }

  // ---------------------------------------------------------------------------
  // Round trips
  // ---------------------------------------------------------------------------

  lemma SplitOfPair(x: bv8, y: bv8)
    ensures High(Join(x, y)) == x && Low(Join(x, y)) == y <==> x < 16 && y < 16
  {
  }

  lemma PairOfSplit(b: bv8)
    ensures Join(High(b), Low(b)) == b
  {
  }

  lemma UnpackGivesNibbles(c: seq<bv8>)
    ensures Nibbles(Unpack(c))
  {
  }

  lemma UnpackPack(s: seq<bv8>)
    requires |s| % 2 == 0 && Nibbles(s)
    ensures Unpack(Pack(s)) == s
  {
    forall j | 0 <= j < |s|
      ensures Unpack(Pack(s))[j] == s[j]
    {
      SplitOfPair(s[j - j % 2], s[j - j % 2 + 1]);
      hide High, Low, Join;
    }
  }

  lemma PackUnpack(c: seq<bv8>)
    ensures Pack(Unpack(c)) == c
  {
    forall i | 0 <= i < |c|
      ensures Pack(Unpack(c))[i] == c[i]
    {
      PairOfSplit(c[i]);
    }
  }

  lemma FlaggedNibbles(hex: seq<bv8>)
    requires NibbleString(hex)
    ensures Nibbles(Flagged(hex)) && |Flagged(hex)| % 2 == 0 && |Flagged(hex)| >= 2
    ensures var flag := Flagged(hex)[0];
            (Odd(flag) <==> |Path(hex)| % 2 == 1) && (flag < 2 <==> !HasTerminator(hex)) && flag < 4
  {
  }

  /** What decoding gives, in terms of the nibbles of the string. */
  lemma DecodedParts(c: seq<bv8>)
    requires |c| > 0
    ensures var flag, hex := High(c[0]), Decoded(c);
            && Path(hex) == Unpack(c)[if Odd(flag) then 1 else 2..] && NibbleString(hex)
            && (HasTerminator(hex) <==> flag >= 2)
  {
    var flag, hex := High(c[0]), Decoded(c);
    var path := Unpack(c)[if Odd(flag) then 1 else 2..];
    UnpackGivesNibbles(c);
    if flag < 2 {
      assert hex == path;
    } else {
      assert hex == path + [TERMINATOR] && hex[..|hex| - 1] == path;
    }
  }

  /** Decoding inverts encoding on nibble sequences, with or without a terminator, and on no
      others. */
  lemma DecodeEncodeIff(hex: seq<bv8>)
    ensures |Encoded(hex)| > 0 && (Decoded(Encoded(hex)) == hex <==> NibbleString(hex))
  {
    DecodedParts(Encoded(hex));
    if NibbleString(hex) {
      DecodeEncode(hex);
    }
  }

  lemma DecodeEncode(hex: seq<bv8>)
    requires NibbleString(hex)
    ensures |Encoded(hex)| > 0 && Decoded(Encoded(hex)) == hex
  {
    var f, c := Flagged(hex), Encoded(hex);
    FlaggedNibbles(hex);
    UnpackPack(f);
    assert Unpack(c)[0] == High(c[0]);
    DecodedParts(c);
    SplitFlagged(hex);
    hide Pack, Unpack, High, Decoded, Flagged, Path, HasTerminator;
    SameParts(Decoded(c), hex);
  }

  lemma SplitFlagged(hex: seq<bv8>)
    ensures Flagged(hex)[if |Path(hex)| % 2 == 1 then 1 else 2..] == Path(hex)
  {
  }

  lemma SameParts(hex: seq<bv8>, other: seq<bv8>)
    requires Path(hex) == Path(other) && HasTerminator(hex) == HasTerminator(other)
    ensures hex == other
  {
    if HasTerminator(hex) {
      assert hex == Path(hex) + [TERMINATOR] && other == Path(other) + [TERMINATOR];
    }
  }

  /** Encoding inverts decoding on the canonical strings, and on no others. */
  lemma EncodeDecodeIff(c: seq<bv8>)
    requires |c| > 0
    ensures NibbleString(Decoded(c)) && (Encoded(Decoded(c)) == c <==> Canonical(c))
  {
    var u, f := Unpack(c), Flagged(Decoded(c));
    DecodedParts(c);
    FlaggedNibbles(Decoded(c));
    UnpackPack(f);
    PackUnpack(c);
    assert Encoded(Decoded(c)) == c <==> f == u;
    FlaggedAgain(c);
  }

  /** The flag that belongs to the parity and the terminator of a decoded string. */
  function FlagAgain(flag: bv8): bv8
  {
    (if flag < 2 then 0 else 2) + (if Odd(flag) then 1 else 0)
  }

  lemma FlagAgainIff(flag: bv8)
    ensures FlagAgain(flag) == flag <==> flag < 4
  {
  }

  lemma FlaggedDecoded(c: seq<bv8>)
    requires |c| > 0
    ensures var u, flag := Unpack(c), High(c[0]);
            Flagged(Decoded(c)) == if Odd(flag) then [FlagAgain(flag)] + u[1..] else [FlagAgain(flag), 0] + u[2..]
  {
    DecodedParts(c);
    assert |Unpack(c)| == 2 * |c|;
    hide Decoded, Unpack, High, Low, HasTerminator, Path;
  }

  /** The flag put back is the one taken off exactly for canonical strings. */
  lemma FlaggedAgain(c: seq<bv8>)
    requires |c| > 0
    ensures Flagged(Decoded(c)) == Unpack(c) <==> Canonical(c)
  {
    var u, flag := Unpack(c), High(c[0]);
    FlaggedDecoded(c);
    FlagAgainIff(flag);
    assert u[0] == flag && u[1] == Low(c[0]) && |u| >= 2;
    hide Decoded, Flagged, Unpack, High, Low, FlagAgain, Odd;
    if Odd(flag) {
      assert u == [u[0]] + u[1..];
      SameTail([FlagAgain(flag)], [u[0]], u[1..]);
    } else {
      assert u == [u[0], u[1]] + u[2..];
      SameTail([FlagAgain(flag), 0], [u[0], u[1]], u[2..]);
    }
  }

  lemma SameTail(a: seq<bv8>, b: seq<bv8>, tail: seq<bv8>)
    requires |a| == |b|
    ensures a + tail == b + tail <==> a == b
  {
    if a + tail == b + tail {
      assert a == (a + tail)[..|a|] && b == (b + tail)[..|b|];
    }
  }

  /** The canonical strings are the encodings, one for each nibble sequence. */
  lemma EncodedIsCanonical(hex: seq<bv8>)
    requires NibbleString(hex)
    ensures Canonical(Encoded(hex))
    ensures forall other :: NibbleString(other) && Encoded(other) == Encoded(hex) ==> other == hex
  {
    DecodeEncodeIff(hex);
    EncodeDecodeIff(Encoded(hex));
    forall other | NibbleString(other) && Encoded(other) == Encoded(hex)
      ensures other == hex
    {
      DecodeEncodeIff(other);
    }
  }

  lemma PackFirst(s: seq<bv8>)
    requires |s| >= 2
    ensures Pack(s) == [Join(s[0], s[1])] + Pack(s[2..])
  {
  }

  lemma JoinIsSum(a: bv8, b: bv8)
    requires a < 16 && b < 16
    ensures Join(a, b) == 16 * a + b
  {
  }

  lemma {:induction false} PairsArePacked(x: seq<bv8>)
    requires Nibbles(x)
    ensures Pairs(x) == Pack(x)
  {
    if |x| >= 2 {
      PairsArePacked(x[2..]);
      JoinIsSum(x[0], x[1]);
      PackFirst(x);
    }
  }

  /** On nibble sequences the encoding is that of the Yellow Paper. */
  lemma EncodedIsReference(hex: seq<bv8>)
    requires NibbleString(hex)
    ensures Encoded(hex) == Reference(Path(hex), HasTerminator(hex))
  {
    var f, path := Flagged(hex), Path(hex);
    FlaggedNibbles(hex);
    PackFirst(f);
    JoinIsSum(f[0], f[1]);
    hide Join, Pack;
    if |path| % 2 == 1 {
      assert f[2..] == path[1..];
      PairsArePacked(path[1..]);
    } else {
      assert f[2..] == path;
      PairsArePacked(path);
    }
  }
}
