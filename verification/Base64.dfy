/** src/Lib/Base64/Base64.cpp: Base64 (section 4 of RFC 4648) over byte strings. */
module Base64 {
  import opened StringOps
  import L = Letters

  type Bytes = seq<bv8>

  const PAD: bv8 := 0x3D

  /** The alphabet table, for sextets 0 to 63. */
  function Letter(v: bv8): bv8 {
    if v < 26 then 0x41 + v
    else if v < 52 then 0x47 + v
    else if v < 62 then v - 4
    else if v == 62 then 0x2B
    else 0x2F
  }

  function DecodeChar(c: bv8): (v: Option<bv8>)
    ensures v.Some? ==> v.value < 64
  {
    if 0x41 <= c <= 0x5A then Some(c - 0x41)
    else if 0x61 <= c <= 0x7A then Some(c - 0x61 + 26)
    else if 0x30 <= c <= 0x39 then Some(c - 0x30 + 52)
    else if c == 0x2B then Some(62)
    else if c == 0x2F then Some(63)
    else None
  }

  lemma {:induction false} LetterDecodes(v: bv8)
    requires v < 64
    ensures DecodeChar(Letter(v)) == Some(v) && Letter(v) != PAD
  {
  }

  lemma {:induction false} DecodesToLetter(c: bv8)
    ensures DecodeChar(c).Some? ==> Letter(DecodeChar(c).value) == c && c != PAD
  {
  }

  // The sextets of a group of three bytes, and back.
  function First(a: bv8): bv8 { (a & 0xFC) >> 2 }
  function Second(a: bv8, b: bv8): bv8 { ((a & 0x03) << 4) | ((b & 0xF0) >> 4) }
  function Third(b: bv8, c: bv8): bv8 { ((b & 0x0F) << 2) | ((c & 0xC0) >> 6) }
  function Fourth(c: bv8): bv8 { c & 0x3F }

  function ByteA(p: bv8, q: bv8): bv8 { (p << 2) | ((q & 0x30) >> 4) }
  function ByteB(q: bv8, r: bv8): bv8 { ((q & 0x0F) << 4) | ((r & 0x3C) >> 2) }
  function ByteC(r: bv8, s: bv8): bv8 { ((r & 0x03) << 6) | s }

  lemma {:induction false} GroupRoundTrip(a: bv8, b: bv8, c: bv8)
    ensures First(a) < 64 && Second(a, b) < 64 && Third(b, c) < 64 && Fourth(c) < 64
    ensures ByteA(First(a), Second(a, b)) == a
    ensures ByteB(Second(a, b), Third(b, c)) == b
    ensures ByteC(Third(b, c), Fourth(c)) == c
  {
  }

  function Encoded(s: Bytes): Bytes {
    if s == [] then []
    else if |s| == 1 then [Letter(First(s[0])), Letter(Second(s[0], 0)), PAD, PAD]
    else if |s| == 2 then [Letter(First(s[0])), Letter(Second(s[0], s[1])), Letter(Third(s[1], 0)), PAD]
    else [Letter(First(s[0])), Letter(Second(s[0], s[1])), Letter(Third(s[1], s[2])), Letter(Fourth(s[2]))]
         + Encoded(s[3..])
  }

  /** The sextets of the alphabet characters before the first '='. */
  function Sextets(t: Bytes): Bytes {
    if t == [] || t[0] == PAD then []
    else if DecodeChar(t[0]).None? then Sextets(t[1..])
    else [DecodeChar(t[0]).value] + Sextets(t[1..])
  }

  function FromSextets(v: Bytes): Bytes {
    if |v| <= 1 then []
    else if |v| == 2 then [ByteA(v[0], v[1])]
    else if |v| == 3 then [ByteA(v[0], v[1]), ByteB(v[1], v[2])]
    else [ByteA(v[0], v[1]), ByteB(v[1], v[2]), ByteC(v[2], v[3])] + FromSextets(v[4..])
  }

  function Decoded(t: Bytes): Bytes {
    FromSextets(Sextets(t))
  }

  // ---------- the two loops ----------

  /** The four characters of a group of which `n` bytes were read; `c` counts only when n == 3. */
  function Group(a: bv8, b: bv8, c: bv8, n: nat): Bytes {
    [Letter(First(a)), Letter(Second(a, b)), if n > 1 then Letter(Third(b, c)) else PAD,
     if n > 2 then Letter(Fourth(c)) else PAD]
  }

  /** The group that starts at input position `i`, missing bytes read as zero. */
  function GroupAt(s: Bytes, i: nat): Bytes
    requires i < |s|
  {
    Group(s[i], if i + 1 < |s| then s[i + 1] else 0, if i + 2 < |s| then s[i + 2] else 0, |s| - i)
  }

  lemma {:induction false} EncodedStep(s: Bytes, i: nat)
    requires i < |s|
    ensures Encoded(s[i..]) == GroupAt(s, i) + Encoded(s[if i + 3 < |s| then i + 3 else |s|..])
  {
    hide First, Second, Third, Fourth, Letter;
    var t := s[i..];
    if |t| >= 3 {
      assert t[3..] == s[i + 3..];
    } else {
      assert s[|s|..] == [];
    }
  }

  lemma {:induction false} EncodedEnds(s: Bytes)
    ensures s[0..] == s && s[|s|..] == [] && Encoded([]) == []
  {
  }

  /** Of a group of one byte the third byte does not show. */
  lemma {:induction false} PaddedGroup(a: bv8, b: bv8, c: bv8, junk: bv8)
    ensures Group(a, b, c, 1) == Group(a, b, junk, 1)
  {
  }

  /** Fill buf3 from position `i`; a byte past the first missing one stays uninitialised. */
  method ReadGroup(input: Bytes, i: nat, buf3: array<bv8>) returns (readBytes: nat)
    requires i < |input| && buf3.Length == 3
    modifies buf3
    ensures readBytes == if i + 3 <= |input| then 3 else |input| - i
    ensures forall k | 0 <= k < readBytes :: buf3[k] == input[i + k]
    ensures readBytes < 3 ==> buf3[readBytes] == 0
  {
    readBytes := 0;
    var len := 0;
    while len < 3
      invariant 0 <= len <= 3 && readBytes == len && i + len <= |input|
      invariant forall k | 0 <= k < len :: buf3[k] == input[i + k]
    {
      if i + len < |input| {
        buf3[len] := input[i + len];
        readBytes := readBytes + 1;
      } else {
        buf3[len] := 0;
        break;
      }
      len := len + 1;
    }
  }

  /** The group in buf3 is the group of the input, though of one byte only two were written. */
  lemma {:induction false} GroupRead(input: Bytes, i: nat, a: bv8, b: bv8, c: bv8, n: nat)
    requires i < |input| && n == (if i + 3 <= |input| then 3 else |input| - i) && a == input[i]
    requires b == (if n > 1 then input[i + 1] else 0) && (n > 1 ==> c == if n > 2 then input[i + 2] else 0)
    ensures Group(a, b, c, n) == GroupAt(input, i)
  {
    hide First, Second, Third, Fourth, Letter;
    if n == 1 {
      PaddedGroup(a, b, 0, c);
    }
  }

  /** The four characters of one group. */
  method EncodeGroup(buf3: array<bv8>, readBytes: nat) returns (output: Bytes)
    requires buf3.Length == 3 && readBytes > 0
    ensures output == Group(buf3[0], buf3[1], buf3[2], readBytes)
  {
    hide First, Second, Third, Fourth, Letter;
    var buf4 := new bv8[4];
    buf4[0] := First(buf3[0]);
    buf4[1] := Second(buf3[0], buf3[1]);
    buf4[2] := Third(buf3[1], buf3[2]);
    buf4[3] := Fourth(buf3[2]);
    ghost var group := Group(buf3[0], buf3[1], buf3[2], readBytes);
    output := [];
    for j := 0 to 4
      invariant output == group[..j]
    {
      assert group[..j + 1] == group[..j] + [group[j]];
      if j < readBytes + 1 {
        output := output + [Letter(buf4[j])];
      } else {
        output := output + [PAD];
      }
    }
    assert group[..4] == group;
  }

  /** encode: what an uninitialised third byte holds does not matter. */
  method Encode(input: Bytes) returns (output: Bytes)
    ensures output == Encoded(input)
  {
    hide First, Second, Third, Fourth, Letter, Encoded, Group;
    output := [];
    var i := 0;
    EncodedEnds(input);
    while i < |input|
      invariant 0 <= i <= |input|
      invariant output + Encoded(input[i..]) == Encoded(input)
    {
      EncodedStep(input, i);
      var buf3 := new bv8[3];
      var readBytes := ReadGroup(input, i, buf3);
      var group := EncodeGroup(buf3, readBytes);
      GroupRead(input, i, buf3[0], buf3[1], buf3[2], readBytes);
      Associates(output, group, Encoded(input[i + readBytes..]));
      output := output + group;
      i := i + readBytes;
    }
  }

  lemma {:induction false} SextetsStep(t: Bytes, i: nat)
    requires i < |t|
    ensures t[i] == PAD ==> Sextets(t[i..]) == []
    ensures t[i] != PAD && DecodeChar(t[i]).None? ==> Sextets(t[i..]) == Sextets(t[i + 1..])
    ensures t[i] != PAD && DecodeChar(t[i]).Some? ==> Sextets(t[i..]) == [DecodeChar(t[i]).value] + Sextets(t[i + 1..])
  {
    hide DecodeChar;
    assert t[i..][1..] == t[i + 1..];
  }

  lemma {:induction false} FullGroup(v: Bytes, w: Bytes)
    requires |v| == 4
    ensures FromSextets(v + w) == [ByteA(v[0], v[1]), ByteB(v[1], v[2]), ByteC(v[2], v[3])] + FromSextets(w)
  {
    hide ByteA, ByteB, ByteC;
    assert (v + w)[4..] == w;
  }

  /** Three bytes from four sextets. */
  method DecodeGroup(buf4: array<bv8>) returns (output: Bytes)
    requires buf4.Length == 4
    ensures output == [ByteA(buf4[0], buf4[1]), ByteB(buf4[1], buf4[2]), ByteC(buf4[2], buf4[3])]
  {
    hide ByteA, ByteB, ByteC;
    var buf3 := new bv8[3];
    buf3[0] := ByteA(buf4[0], buf4[1]);
    buf3[1] := ByteB(buf4[1], buf4[2]);
    buf3[2] := ByteC(buf4[2], buf4[3]);
    output := [];
    for j := 0 to 3
      invariant output == buf3[..j]
    {
      output := output + [buf3[j]];
    }
  }

  /** decode: sextets are collected in fours; a rest of two or three gives one or two bytes. */
  method Decode(input: Bytes) returns (output: Bytes)
    ensures output == Decoded(input)
  {
    hide DecodeChar, ByteA, ByteB, ByteC, Sextets, FromSextets;
    output := [];
    var buf4 := new bv8[4];
    var count := 0;
    var i := 0;
    ghost var left := Sextets(input);
    assert input[0..] == input && buf4[..0] + left == left && [] + FromSextets(left) == FromSextets(left);
    while i < |input|
      invariant 0 <= i <= |input| && 0 <= count < 4 && left == Sextets(input[i..])
      invariant output + FromSextets(buf4[..count] + left) == Decoded(input)
    {
      SextetsStep(input, i);
      if input[i] == PAD {
        left := [];
        break;
      }
      var val := DecodeChar(input[i]);
      if val.Some? {
        ghost var had := buf4[..count];
        buf4[count] := val.value;
        count := count + 1;
        assert buf4[..count] == had + [val.value];
        left := Sextets(input[i + 1..]);
        Associates(had, [val.value], left);
        if count == 4 {
          FullGroup(buf4[..4], left);
          var three := DecodeGroup(buf4);
          ghost var rest := FromSextets(left);
          Associates(output, three, rest);
          output := output + three;
          assert buf4[..0] + left == left;
          count := 0;
        }
      }
      i := i + 1;
    }
    EndOfInput(input);
    assert buf4[..count] + left == buf4[..count];
    var rest := DecodeRest(buf4, count);
    output := output + rest;
  }

  /** One byte from two sextets that are left, two from three. */
  method DecodeRest(buf4: array<bv8>, count: nat) returns (output: Bytes)
    requires buf4.Length == 4 && count < 4
    ensures output == FromSextets(buf4[..count])
  {
    hide ByteA, ByteB;
    ShortGroup(buf4[..count]);
    output := [];
    if count > 1 {
      output := output + [ByteA(buf4[0], buf4[1])];
    }
    if count > 2 {
      output := output + [ByteB(buf4[1], buf4[2])];
    }
  }

  lemma {:induction false} EndOfInput(t: Bytes)
    ensures Sextets(t[|t|..]) == []
  {
  }

  lemma {:induction false} ShortGroup(v: Bytes)
    requires |v| < 4
    ensures FromSextets(v) == (if |v| > 1 then [ByteA(v[0], v[1])] else [])
                              + (if |v| > 2 then [ByteB(v[1], v[2])] else [])
  {
  }

  // ---------- round trips ----------

  lemma {:induction false} SextetsOfGroup(a: bv8, b: bv8, c: bv8, n: nat, rest: Bytes)
    requires n > 2
    ensures Sextets(Group(a, b, c, n) + rest) == [First(a), Second(a, b), Third(b, c), Fourth(c)] + Sextets(rest)
  {
    GroupRoundTrip(a, b, c);
    hide First, Second, Third, Fourth, Letter, DecodeChar;
    var g := Group(a, b, c, n) + rest;
    LetterDecodes(First(a));
    LetterDecodes(Second(a, b));
    LetterDecodes(Third(b, c));
    LetterDecodes(Fourth(c));
    assert g[0..] == g && g[4..] == rest;
    SextetsStep(g, 0);
    SextetsStep(g, 1);
    SextetsStep(g, 2);
    SextetsStep(g, 3);
  }

  lemma {:induction false} SextetsOfLast(a: bv8, b: bv8, n: nat)
    requires n == 1 || n == 2
    ensures Sextets(Group(a, b, 0, n)) == [First(a), Second(a, b)] + if n == 2 then [Third(b, 0)] else []
  {
    GroupRoundTrip(a, b, 0);
    hide First, Second, Third, Fourth, Letter, DecodeChar;
    var g := Group(a, b, 0, n);
    LetterDecodes(First(a));
    LetterDecodes(Second(a, b));
    LetterDecodes(Third(b, 0));
    assert g[0..] == g;
    SextetsStep(g, 0);
    SextetsStep(g, 1);
    SextetsStep(g, 2);
    SextetsStep(g, 3);
  }

  /** decode undoes encode, for every byte string. */
  lemma {:induction false} RoundTrip(s: Bytes)
    ensures Decoded(Encoded(s)) == s
    decreases |s|
  {
    hide First, Second, Third, Fourth, Letter, DecodeChar, ByteA, ByteB, ByteC, Sextets;
    if s == [] {
      NoSextets();
    } else if |s| < 3 {
      GroupRoundTrip(s[0], if |s| == 2 then s[1] else 0, 0);
      SextetsOfLast(s[0], if |s| == 2 then s[1] else 0, |s|);
    } else {
      GroupRoundTrip(s[0], s[1], s[2]);
      SextetsOfGroup(s[0], s[1], s[2], 3, Encoded(s[3..]));
      RoundTrip(s[3..]);
      FullGroup([First(s[0]), Second(s[0], s[1]), Third(s[1], s[2]), Fourth(s[2])], Sextets(Encoded(s[3..])));
      assert s == [s[0], s[1], s[2]] + s[3..];
    }
  }

  lemma {:induction false} NoSextets()
    ensures Sextets([]) == []
  {
  }

  /** Four characters for every three bytes begun. */
  lemma {:induction false} EncodedLength(s: Bytes)
    ensures |Encoded(s)| == 4 * ((|s| + 2) / 3)
    decreases |s|
  {
    if |s| >= 3 { EncodedLength(s[3..]); }
  }

  /** What decode looks at: alphabet characters and '='. */
  function Significant(t: Bytes): Bytes {
    if t == [] then []
    else if t[0] == PAD || DecodeChar(t[0]).Some? then [t[0]] + Significant(t[1..])
    else Significant(t[1..])
  }

  lemma {:induction false} OnlySignificantCounts(t: Bytes)
    ensures Sextets(Significant(t)) == Sextets(t)
  {
    hide DecodeChar;
    if t != [] {
      OnlySignificantCounts(t[1..]);
      if t[0] == PAD || DecodeChar(t[0]).Some? {
        assert Significant(t)[1..] == Significant(t[1..]);
      }
    }
  }

  /** Characters outside the alphabet, other than '=', may be inserted anywhere. */
  lemma {:induction false} InsertionsAreIgnored(s: Bytes, t: Bytes)
    requires Significant(t) == Significant(Encoded(s))
    ensures Decoded(t) == s
  {
    OnlySignificantCounts(t);
    OnlySignificantCounts(Encoded(s));
    RoundTrip(s);
  }

  /** Whole groups of letters, the last possibly padded, with no stray bits in a padded group. */
  predicate Canonical(t: Bytes)
    decreases |t|
  {
    t == [] ||
    (|t| >= 4 && DecodeChar(t[0]).Some? && DecodeChar(t[1]).Some? &&
     if DecodeChar(t[2]).Some? && DecodeChar(t[3]).Some? then Canonical(t[4..])
     else
       |t| == 4 && t[3] == PAD &&
       if DecodeChar(t[2]).Some? then DecodeChar(t[2]).value & 0x03 == 0
       else t[2] == PAD && DecodeChar(t[1]).value & 0x0F == 0)
  }

  lemma {:induction false} EncodedIsCanonical(s: Bytes)
    ensures Canonical(Encoded(s))
    decreases |s|
  {
    hide First, Second, Third, Fourth, Letter, DecodeChar;
    if s != [] {
      var b, c := if |s| > 1 then s[1] else 0, if |s| > 2 then s[2] else 0;
      GroupRoundTrip(s[0], b, c);
      LetterDecodes(First(s[0]));
      LetterDecodes(Second(s[0], b));
      LetterDecodes(Third(b, c));
      LetterDecodes(Fourth(c));
      PadIsNoLetter();
      NoStrayBits(s[0], b);
      if |s| >= 3 {
        EncodedIsCanonical(s[3..]);
        assert Encoded(s)[4..] == Encoded(s[3..]);
      }
    }
  }

  lemma {:induction false} PadIsNoLetter()
    ensures DecodeChar(PAD).None?
  {
  }

  lemma {:induction false} NoStrayBits(a: bv8, b: bv8)
    ensures Second(a, 0) & 0x0F == 0 && Third(b, 0) & 0x03 == 0
  {
  }

  lemma {:induction false} SextetRoundTrip(p: bv8, q: bv8, r: bv8, s: bv8)
    requires p < 64 && q < 64 && r < 64 && s < 64
    ensures First(ByteA(p, q)) == p && Second(ByteA(p, q), ByteB(q, r)) == q
    ensures Third(ByteB(q, r), ByteC(r, s)) == r && Fourth(ByteC(r, s)) == s
    ensures q & 0x0F == 0 ==> Second(ByteA(p, q), 0) == q
    ensures r & 0x03 == 0 ==> Third(ByteB(q, r), 0) == r
  {
  }

  lemma {:induction false} SextetsOfLetters(t: Bytes)
    requires |t| >= 4 && DecodeChar(t[0]).Some? && DecodeChar(t[1]).Some?
    ensures Sextets(t) == [DecodeChar(t[0]).value, DecodeChar(t[1]).value] + Sextets(t[2..])
    ensures t[2] == PAD ==> Sextets(t[2..]) == []
    ensures t[3] == PAD && DecodeChar(t[2]).Some? ==> Sextets(t[2..]) == [DecodeChar(t[2]).value]
    ensures DecodeChar(t[2]).Some? && DecodeChar(t[3]).Some? ==>
              Sextets(t) == [DecodeChar(t[0]).value, DecodeChar(t[1]).value, DecodeChar(t[2]).value,
                             DecodeChar(t[3]).value] + Sextets(t[4..])
  {
    forall k | 0 <= k < 4 ensures DecodeChar(t[k]).Some? ==> t[k] != PAD {
      DecodesToLetter(t[k]);
    }
    hide DecodeChar;
    assert t[0..] == t;
    SextetsStep(t, 0);
    SextetsStep(t, 1);
    SextetsStep(t, 2);
    SextetsStep(t, 3);
  }

  lemma {:induction false} FullGroupReturns(p: bv8, q: bv8, r: bv8, s: bv8, rest: Bytes)
    requires p < 64 && q < 64 && r < 64 && s < 64
    ensures Encoded(FromSextets([p, q, r, s] + rest))
            == [Letter(p), Letter(q), Letter(r), Letter(s)] + Encoded(FromSextets(rest))
  {
    SextetRoundTrip(p, q, r, s);
    FullGroup([p, q, r, s], rest);
    hide First, Second, Third, Fourth, Letter, ByteA, ByteB, ByteC, FromSextets;
    var g := [ByteA(p, q), ByteB(q, r), ByteC(r, s)];
    assert (g + FromSextets(rest))[3..] == FromSextets(rest);
  }

  lemma {:induction false} LastGroupReturns(p: bv8, q: bv8, r: bv8)
    requires p < 64 && q < 64 && r < 64
    ensures q & 0x0F == 0 ==> Encoded(FromSextets([p, q])) == [Letter(p), Letter(q), PAD, PAD]
    ensures r & 0x03 == 0 ==> Encoded(FromSextets([p, q, r])) == [Letter(p), Letter(q), Letter(r), PAD]
  {
    SextetRoundTrip(p, q, r, 0);
    SextetRoundTrip(p, q, 0, 0);
    hide First, Second, Third, Fourth, Letter, ByteA, ByteB, ByteC;
  }

  lemma {:induction false} LettersBack(t: Bytes)
    requires |t| >= 4
    ensures forall k | 0 <= k < 4 :: DecodeChar(t[k]).Some? ==> Letter(DecodeChar(t[k]).value) == t[k]
  {
    forall k | 0 <= k < 4 ensures DecodeChar(t[k]).Some? ==> Letter(DecodeChar(t[k]).value) == t[k] {
      DecodesToLetter(t[k]);
    }
  }

  lemma {:induction false} WholeGroupBack(t: Bytes)
    requires |t| >= 4 && forall k | 0 <= k < 4 :: DecodeChar(t[k]).Some?
    requires Encoded(Decoded(t[4..])) == t[4..]
    ensures Encoded(Decoded(t)) == t
  {
    SextetsOfLetters(t);
    LettersBack(t);
    hide DecodeChar, Letter, Encoded, FromSextets, Sextets;
    var p, q, r, s := DecodeChar(t[0]).value, DecodeChar(t[1]).value, DecodeChar(t[2]).value, DecodeChar(t[3]).value;
    FullGroupReturns(p, q, r, s, Sextets(t[4..]));
    assert t == [t[0], t[1], t[2], t[3]] + t[4..];
  }

  lemma {:induction false} PaddedGroupBack(t: Bytes)
    requires |t| == 4 && t[3] == PAD && DecodeChar(t[0]).Some? && DecodeChar(t[1]).Some?
    requires if DecodeChar(t[2]).Some? then DecodeChar(t[2]).value & 0x03 == 0
             else t[2] == PAD && DecodeChar(t[1]).value & 0x0F == 0
    ensures Encoded(Decoded(t)) == t
  {
    SextetsOfLetters(t);
    LettersBack(t);
    hide DecodeChar, Letter, Encoded, FromSextets, Sextets;
    var p, q, r := DecodeChar(t[0]).value, DecodeChar(t[1]).value, DecodeChar(t[2]);
    if r.Some? {
      assert Sextets(t) == [p, q, r.value];
      LastGroupReturns(p, q, r.value);
    } else {
      assert Sextets(t) == [p, q];
      LastGroupReturns(p, q, 0);
    }
    assert t == [t[0], t[1], t[2], t[3]];
  }

  lemma {:induction false} CanonicalReturns(t: Bytes)
    requires Canonical(t)
    ensures Encoded(Decoded(t)) == t
    decreases |t|
  {
    hide DecodeChar, Letter, FromSextets, Sextets, Encoded;
    if t == [] {
      NothingBack();
    } else if DecodeChar(t[2]).Some? && DecodeChar(t[3]).Some? {
      CanonicalReturns(t[4..]);
      WholeGroupBack(t);
    } else {
      PaddedGroupBack(t);
    }
  }

  lemma {:induction false} NothingBack()
    ensures Encoded(Decoded([])) == []
  {
    NoSextets();
  }

  /** encode undoes decode exactly for canonical text. */
  lemma {:induction false} CanonicalText(t: Bytes)
    ensures Encoded(Decoded(t)) == t <==> Canonical(t)
  {
    EncodedIsCanonical(Decoded(t));
    if Canonical(t) {
      CanonicalReturns(t);
    }
  }

  // ---------- the characters ----------

  const ALPHABET := L.UPPER + L.LOWER + "0123456789" + "+/"

  lemma {:induction false} AlphabetParts(k: nat)
    requires k < 64
    ensures ALPHABET[k] == if k < 26 then L.UPPER[k] else if k < 52 then L.LOWER[k - 26]
                           else if k < 62 then L.DECIMAL[k - 52] else "+/"[k - 62]
  {
    var letters, tail := L.UPPER + L.LOWER, L.DECIMAL + "+/";
    assert ALPHABET == letters + tail;
    assert ALPHABET[k] == if k < 52 then letters[k] else tail[k - 52];
  }

  lemma {:induction false} AlphabetInOrder(k: nat)
    requires k < 64
    ensures ALPHABET[k] as int == if k < 26 then 65 + k else if k < 52 then 71 + k else if k < 62 then k - 4
                                  else if k == 62 then '+' as int else '/' as int
  {
    AlphabetParts(k);
    hide ALPHABET, L.UPPER, L.LOWER, L.DECIMAL;
    if k < 26 {
      L.LettersInOrder(k);
    } else if k < 52 {
      L.LettersInOrder(k - 26);
    } else if k < 62 {
      L.DecimalDigit(k - 52);
    }
  }

  lemma {:induction false} LetterRanges(v: bv8)
    requires v < 64
    ensures Letter(v) as int == if v < 26 then v as int + 65 else if v < 52 then v as int + 71
                                else if v < 62 then v as int - 4 else if v == 62 then 43 else 47
    ensures (v < 26 <==> (v as int) < 26) && (v < 52 <==> (v as int) < 52) && (v < 62 <==> (v as int) < 62) && (v as int) < 64
    ensures v == 62 <==> v as int == 62
  {
  }

  function LetterOf(n: nat): char
    requires n < 64
  {
    ALPHABET[n]
  }

  /** Sextet `v` is written as character number `v` of the alphabet, and read from no other. */
  lemma {:induction false} LetterIs(v: bv8)
    requires v < 64
    ensures (v as int) < 64 && Letter(v) as int == LetterOf(v as int) as int
    ensures forall c :: DecodeChar(c) == Some(v) <==> c == Letter(v)
  {
    hide Letter;
    LetterRanges(v);
    var k := v as int;
    AlphabetInOrder(k);
    forall c ensures DecodeChar(c) == Some(v) <==> c == Letter(v) {
      LetterDecodes(v);
      DecodesToLetter(c);
    }
  }

  // The sextets as numbers.
  lemma {:induction false} FirstIs(a: bv8)
    ensures First(a) as int == a as int / 4 && First(a) < 64
  {
  }

  lemma {:induction false} Quotients(a: bv8)
    ensures (a / 16) as int == a as int / 16 && (a % 4) as int == a as int % 4
    ensures (a / 64) as int == a as int / 64 && (a % 16) as int == a as int % 16
  {
  }

  lemma {:induction false} Sums(p: bv8, q: bv8)
    ensures p < 4 && q < 16 ==> (p * 16 + q) as int == p as int * 16 + q as int
    ensures p < 16 && q < 4 ==> (p * 4 + q) as int == p as int * 4 + q as int
  {
  }

  lemma {:induction false} SecondIs(a: bv8, b: bv8)
    ensures Second(a, b) as int == a as int % 4 * 16 + b as int / 16 && Second(a, b) < 64
  {
    assert Second(a, b) == a % 4 * 16 + b / 16 && a % 4 < 4 && b / 16 < 16;
    hide Second;
    Quotients(a);
    Quotients(b);
    Sums(a % 4, b / 16);
  }

  lemma {:induction false} ThirdIs(b: bv8, c: bv8)
    ensures Third(b, c) as int == b as int % 16 * 4 + c as int / 64 && Third(b, c) < 64
  {
    assert Third(b, c) == b % 16 * 4 + c / 64 && b % 16 < 16 && c / 64 < 4;
    hide Third;
    Quotients(b);
    Quotients(c);
    Sums(b % 16, c / 64);
  }

  lemma {:induction false} FourthIs(c: bv8)
    ensures Fourth(c) as int == c as int % 64 && Fourth(c) < 64
  {
  }

  /** The number that byte `i` contributes, 0 behind the end. */
  function ByteAt(s: Bytes, i: nat): (n: nat)
    ensures n < 256
  {
    if i < |s| then s[i] as nat else 0
  }

  /** The three bytes of group `g` as one number. */
  function GroupNumber(s: Bytes, g: nat): (n: nat)
    ensures n < 16777216
  {
    ByteAt(s, 3 * g) * 65536 + ByteAt(s, 3 * g + 1) * 256 + ByteAt(s, 3 * g + 2)
  }

  lemma {:induction false} FirstGroupIs(s: Bytes)
    requires s != []
    ensures var e, n := Encoded(s), GroupNumber(s, 0);
            && |e| >= 4
            && e[0] as int == LetterOf(n / 262144) as int && e[1] as int == LetterOf(n / 4096 % 64) as int
            && e[2] as int == (if 1 < |s| then LetterOf(n / 64 % 64) else '=') as int
            && e[3] as int == (if 2 < |s| then LetterOf(n % 64) else '=') as int
  {
    hide First, Second, Third, Fourth, Letter, LetterOf, GroupNumber, Encoded;
    var a, b, c := s[0], if 1 < |s| then s[1] else 0, if 2 < |s| then s[2] else 0;
    FirstNumberIs(s, a, b, c);
    FirstGroupShape(s);
    GroupIs(a, b, c, GroupNumber(s, 0));
  }

  lemma {:induction false} FirstNumberIs(s: Bytes, a: bv8, b: bv8, c: bv8)
    requires s != [] && a == s[0] && b == (if 1 < |s| then s[1] else 0) && c == (if 2 < |s| then s[2] else 0)
    ensures GroupNumber(s, 0) == a as nat * 65536 + b as nat * 256 + c as nat
  {
  }

  lemma {:induction false} FirstGroupShape(s: Bytes)
    requires s != []
    ensures var e, b, c := Encoded(s), if 1 < |s| then s[1] else 0, if 2 < |s| then s[2] else 0;
            && |e| >= 4 && e[0] == Letter(First(s[0])) && e[1] == Letter(Second(s[0], b))
            && e[2] == (if 1 < |s| then Letter(Third(b, c)) else 0x3D)
            && e[3] == (if 2 < |s| then Letter(Fourth(c)) else 0x3D)
  {
    hide First, Second, Third, Fourth, Letter;
  }

  lemma {:induction false} GroupIs(a: bv8, b: bv8, c: bv8, n: nat)
    requires n == a as nat * 65536 + b as nat * 256 + c as nat && n < 16777216
    ensures && Letter(First(a)) as int == LetterOf(n / 262144) as int
            && Letter(Second(a, b)) as int == LetterOf(n / 4096 % 64) as int
            && Letter(Third(b, c)) as int == LetterOf(n / 64 % 64) as int
            && Letter(Fourth(c)) as int == LetterOf(n % 64) as int
            && 0x3D as bv8 as int == '=' as int
  {
    hide First, Second, Third, Fourth, Letter, LetterOf;
    FirstFits(a, b, c, n);
    SecondFits(a, b, c, n);
    ThirdFits(a, b, c, n);
    FourthFits(a, b, c, n);
  }

  lemma {:induction false} FirstFits(a: bv8, b: bv8, c: bv8, n: nat)
    requires n == a as nat * 65536 + b as nat * 256 + c as nat && n < 16777216
    ensures Letter(First(a)) as int == LetterOf(n / 262144) as int
  {
    hide First, Letter, LetterOf;
    FirstIs(a);
    FirstQuarter(a as nat, b as nat, c as nat);
    SextetIs(First(a), n / 262144);
  }

  lemma {:induction false} SecondFits(a: bv8, b: bv8, c: bv8, n: nat)
    requires n == a as nat * 65536 + b as nat * 256 + c as nat && n < 16777216
    ensures Letter(Second(a, b)) as int == LetterOf(n / 4096 % 64) as int
  {
    hide Second, Letter, LetterOf;
    SecondIs(a, b);
    SecondQuarter(a as nat, b as nat, c as nat);
    SextetIs(Second(a, b), n / 4096 % 64);
  }

  lemma {:induction false} ThirdFits(a: bv8, b: bv8, c: bv8, n: nat)
    requires n == a as nat * 65536 + b as nat * 256 + c as nat && n < 16777216
    ensures Letter(Third(b, c)) as int == LetterOf(n / 64 % 64) as int
  {
    hide Third, Letter, LetterOf;
    ThirdIs(b, c);
    ThirdQuarter(a as nat, b as nat, c as nat);
    SextetIs(Third(b, c), n / 64 % 64);
  }

  lemma {:induction false} FourthFits(a: bv8, b: bv8, c: bv8, n: nat)
    requires n == a as nat * 65536 + b as nat * 256 + c as nat && n < 16777216
    ensures Letter(Fourth(c)) as int == LetterOf(n % 64) as int
  {
    hide Fourth, Letter, LetterOf;
    FourthIs(c);
    FirstQuarter(a as nat, b as nat, c as nat);
    SextetIs(Fourth(c), n % 64);
  }

  lemma {:induction false} SextetIs(v: bv8, k: nat)
    requires v < 64 && k < 64 && v as int == k
    ensures Letter(v) as int == LetterOf(k) as int
  {
    LetterIs(v);
  }

  lemma {:induction false} FirstQuarter(a: nat, b: nat, c: nat)
    requires a < 256 && b < 256 && c < 256
    ensures (a * 65536 + b * 256 + c) / 262144 == a / 4 && (a * 65536 + b * 256 + c) % 64 == c % 64
  {
    var q, r := a / 4, a % 4;
    assert a * 65536 + b * 256 + c == q * 262144 + (r * 65536 + b * 256 + c);
    assert a * 65536 + b * 256 + c == (a * 1024 + b * 4) * 64 + c;
  }

  lemma {:induction false} SecondQuarter(a: nat, b: nat, c: nat)
    requires a < 256 && b < 256 && c < 256
    ensures (a * 65536 + b * 256 + c) / 4096 % 64 == a % 4 * 16 + b / 16
  {
    var q, r, x, y := b / 16, b % 16, a / 4, a % 4;
    assert a * 65536 + b * 256 + c == (a * 16 + q) * 4096 + (r * 256 + c);
    assert (a * 65536 + b * 256 + c) / 4096 == a * 16 + q;
    assert a * 16 + q == x * 64 + (y * 16 + q);
    LowBits(x, y * 16 + q);
  }

  lemma {:induction false} ThirdQuarter(a: nat, b: nat, c: nat)
    requires a < 256 && b < 256 && c < 256
    ensures (a * 65536 + b * 256 + c) / 64 % 64 == b % 16 * 4 + c / 64
  {
    var q, r := c / 64, c % 64;
    assert a * 65536 + b * 256 + c == (a * 1024 + b * 4 + q) * 64 + r;
    assert (a * 65536 + b * 256 + c) / 64 == a * 1024 + b * 4 + q;
    MiddleBits(a, b, q);
  }

  lemma {:induction false} MiddleBits(a: nat, b: nat, q: nat)
    requires q < 4
    ensures (a * 1024 + b * 4 + q) % 64 == b % 16 * 4 + q
  {
    var x, y := b / 16, b % 16;
    assert b == x * 16 + y;
    assert a * 1024 + b * 4 + q == (a * 16 + x) * 64 + (y * 4 + q);
    LowBits(a * 16 + x, y * 4 + q);
  }

  lemma {:induction false} LowBits(k: nat, m: nat)
    requires m < 64
    ensures (k * 64 + m) % 64 == m
  {
  }

  /** What an encoding consists of: group after group, its number in base 64, digits from the alphabet, and '='
      for each byte that the last group lacks. */
  lemma {:induction false} EncodedIs(s: Bytes, g: nat)
    requires 3 * g < |s|
    ensures var e, n := Encoded(s), GroupNumber(s, g);
            && |e| >= 4 * g + 4
            && e[4 * g] as int == LetterOf(n / 262144) as int && e[4 * g + 1] as int == LetterOf(n / 4096 % 64) as int
            && e[4 * g + 2] as int == (if 3 * g + 1 < |s| then LetterOf(n / 64 % 64) else '=') as int
            && e[4 * g + 3] as int == (if 3 * g + 2 < |s| then LetterOf(n % 64) else '=') as int
    decreases |s|
  {
    hide Encoded, LetterOf;
    if g == 0 {
      FirstGroupIs(s);
    } else {
      var t := s[3..];
      EncodedIs(t, g - 1);
      EncodedTail(s);
      assert GroupNumber(t, g - 1) == GroupNumber(s, g);
    }
  }

  lemma {:induction false} EncodedTail(s: Bytes)
    requires |s| >= 3
    ensures |Encoded(s)| == 4 + |Encoded(s[3..])|
    ensures forall i | 0 <= i < |Encoded(s[3..])| :: Encoded(s)[i + 4] == Encoded(s[3..])[i]
  {
    hide First, Second, Third, Fourth, Letter;
  }
}
