/** src/Http/URI/URI.cpp: percent-encoding and decoding of byte strings. */
module Uri {
  import opened StringOps
  import L = Letters

  type Bytes = seq<bv8>

  datatype Decoded = Ok(bytes: Bytes) | Malformed

  /** The two sets of bytes an encoder leaves alone: encodeURI's and encodeURIComponent's. */
  datatype Safe = WholeUri | Component

  const PERCENT: bv8 := 0x25

  predicate AlphaNumeric(c: bv8) {
    0x41 <= c <= 0x5A || 0x61 <= c <= 0x7A || 0x30 <= c <= 0x39
  }

  predicate Unescaped(safe: Safe, c: bv8) {
    AlphaNumeric(c) ||
    match safe
    case WholeUri => // - . _ ~   : / ? # @   ! $ & ' ( ) * + , ; =
      c == 0x2D || c == 0x2E || c == 0x5F || c == 0x7E || c == 0x3A || c == 0x2F
      || c == 0x3F || c == 0x23 || c == 0x40 || c == 0x21 || c == 0x24 || c == 0x26
      || c == 0x27 || c == 0x28 || c == 0x29 || c == 0x2A || c == 0x2B || c == 0x2C
      || c == 0x3B || c == 0x3D
    case Component => // - _ . ! ~ * ' ( )
      c == 0x2D || c == 0x5F || c == 0x2E || c == 0x21 || c == 0x7E || c == 0x2A
      || c == 0x27 || c == 0x28 || c == 0x29
  }

  /** ; , / ? : @ & = + $ #, which the decoder leaves encoded. */
  predicate Reserved(c: bv8) {
    c == 0x3B || c == 0x2C || c == 0x2F || c == 0x3F || c == 0x3A || c == 0x40
      || c == 0x26 || c == 0x3D || c == 0x2B || c == 0x24 || c == 0x23
  }

  function HexDigit(v: bv8): bv8 {
    if v < 10 then 0x30 + v else 0x37 + v
  }

  function HexValue(c: bv8): Option<bv8> {
    if 0x30 <= c <= 0x39 then Some(c - 0x30)
    else if 0x41 <= c <= 0x46 then Some(c - 0x37)
    else if 0x61 <= c <= 0x66 then Some(c - 0x57)
    else None
  }

  function Escape(c: bv8): Bytes {
    [PERCENT, HexDigit(c >> 4), HexDigit(c & 0x0F)]
  }

  function Encoded(safe: Safe, s: Bytes): Bytes {
    if s == [] then []
    else (if Unescaped(safe, s[0]) then [s[0]] else Escape(s[0])) + Encoded(safe, s[1..])
  }

  /** The byte written as two hexadecimal digits after position `pos`. */
  function HexByte(str: Bytes, pos: nat): (r: Option<bv8>)
    ensures r.Some? ==> pos + 2 < |str|
  {
    if pos + 2 >= |str| then None
    else
      var hi, lo := HexValue(str[pos + 1]), HexValue(str[pos + 2]);
      if hi.Some? && lo.Some? then Some((hi.value << 4) | lo.value) else None
  }

  /** How many continuation bytes a lead byte announces. */
  function Follow(first: bv8): Option<nat> {
    if first & 0x80 == 0x00 then Some(0)
    else if first & 0xE0 == 0xC0 then Some(1)
    else if first & 0xF0 == 0xE0 then Some(2)
    else if first & 0xF8 == 0xF0 then Some(3)
    else None
  }

  predicate Continues(c: bv8) {
    c & 0xC0 == 0x80
  }

  /** `n` percent-encoded continuation bytes from position `pos` on. */
  function Continuation(str: Bytes, pos: nat, n: nat): (r: Option<Bytes>)
    ensures r.Some? ==> |r.value| == n && (pos <= |str| ==> pos + 3 * n <= |str|)
    decreases n
  {
    if n == 0 then Some([])
    else if pos >= |str| || str[pos] != PERCENT then None
    else
      var c := HexByte(str, pos);
      if c.None? || !Continues(c.value) then None
      else
        var rest := Continuation(str, pos + 3, n - 1);
        if rest.None? then None else Some([c.value] + rest.value)
  }

  function After(bytes: Bytes, rest: Decoded): Decoded {
    if rest.Ok? then Ok(bytes + rest.bytes) else Malformed
  }

  function DecodedFrom(str: Bytes, i: nat): Decoded
    requires i <= |str|
    decreases |str| - i
  {
    if i == |str| then Ok([])
    else if str[i] != PERCENT then After([str[i]], DecodedFrom(str, i + 1))
    else
      var first := HexByte(str, i);
      if first.None? then Malformed
      else if Reserved(first.value) then After(str[i..i + 3], DecodedFrom(str, i + 3))
      else
        var n := Follow(first.value);
        if n.None? then Malformed
        else
          var more := Continuation(str, i + 3, n.value);
          if more.None? then Malformed
          else After([first.value] + more.value, DecodedFrom(str, i + 3 + 3 * n.value))
  }

  /** encodeURI and encodeURIComponent. */
  method Encode(safe: Safe, str: Bytes) returns (encoded: Bytes)
    ensures encoded == Encoded(safe, str)
  {
    hide Unescaped, Escape;
    encoded := [];
    for i := 0 to |str|
      invariant encoded + Encoded(safe, str[i..]) == Encoded(safe, str)
    {
      var c := str[i];
      assert str[i..][1..] == str[i + 1..];
      ghost var rest := Encoded(safe, str[i + 1..]);
      if Unescaped(safe, c) {
        assert encoded + ([c] + rest) == encoded + [c] + rest;
        encoded := encoded + [c];
      } else {
        assert encoded + (Escape(c) + rest) == encoded + Escape(c) + rest;
        encoded := encoded + Escape(c);
      }
    }
  }

  lemma {:induction false} ReservedIsAscii(c: bv8)
    ensures Reserved(c) ==> c < 0x80
  {
  }

  lemma {:induction false} AfterAfter(a: Bytes, b: Bytes, rest: Decoded)
    ensures After(a, After(b, rest)) == After(a + b, rest)
  {
    if rest.Ok? {
      assert a + (b + rest.bytes) == a + b + rest.bytes;
    }
  }

  predicate ContinuesAt(str: Bytes, pos: nat) {
    pos < |str| && str[pos] == PERCENT && HexByte(str, pos).Some? && Continues(HexByte(str, pos).value)
  }

  lemma {:induction false} ContinuationStops(str: Bytes, pos: nat, k: nat, n: nat)
    requires k < n && !ContinuesAt(str, pos + 3 * k)
    ensures Continuation(str, pos, n).None?
    decreases k
  {
    hide HexByte, Continues;
    if k > 0 { ContinuationStops(str, pos + 3, k - 1, n - 1); }
  }

  lemma {:induction false} ContinuationGrows(str: Bytes, pos: nat, k: nat)
    requires Continuation(str, pos, k).Some? && ContinuesAt(str, pos + 3 * k)
    ensures Continuation(str, pos, k + 1).Some?
    ensures Continuation(str, pos, k + 1).value == Continuation(str, pos, k).value + [HexByte(str, pos + 3 * k).value]
    decreases k
  {
    hide HexByte, Continues;
    if k > 0 {
      ContinuationGrows(str, pos + 3, k - 1);
    } else {
      assert Continuation(str, pos + 3, 0) == Some([]);
    }
  }

  /** The inner loop of decodeURI: check and collect the announced continuation bytes. */
  method Continue(str: Bytes, i: nat, first: bv8, expected: nat) returns (bytes: Option<Bytes>)
    ensures bytes.Some? <==> Continuation(str, i + 3, expected).Some?
    ensures bytes.Some? ==> bytes.value == [first] + Continuation(str, i + 3, expected).value
  {
    hide HexByte, Continues;
    var collected := [first];
    for k := 0 to expected
      invariant Continuation(str, i + 3, k).Some?
      invariant collected == [first] + Continuation(str, i + 3, k).value
    {
      var pos := i + 3 * (k + 1);
      assert pos == i + 3 + 3 * k;
      if pos >= |str| || str[pos] != PERCENT {
        ContinuationStops(str, i + 3, k, expected);
        return None;
      }
      var cont := HexByte(str, pos);
      if cont.None? || !Continues(cont.value) {
        ContinuationStops(str, i + 3, k, expected);
        return None;
      }
      ContinuationGrows(str, i + 3, k);
      collected := collected + [cont.value];
    }
    return Some(collected);
  }

  lemma {:induction false} AfterNothing(a: Bytes, rest: Decoded)
    ensures After([], rest) == rest
    ensures After(a, Malformed) == Malformed && After(a, Ok([])) == Ok(a)
  {
    assert a + [] == a;
    if rest.Ok? {
      assert [] + rest.bytes == rest.bytes;
    }
  }

  /** decodeURI; an exception becomes Malformed. */
  method Decode(str: Bytes) returns (result: Decoded)
    ensures result == DecodedFrom(str, 0)
  {
    hide Reserved, Follow, Continuation, After, HexByte;
    var decoded: Bytes := [];
    var i := 0;
    AfterNothing([], DecodedFrom(str, 0));
    while i < |str|
      invariant 0 <= i <= |str|
      invariant After(decoded, DecodedFrom(str, i)) == DecodedFrom(str, 0)
    {
      AfterNothing(decoded, Malformed);
      if str[i] == PERCENT {
        var first := HexByte(str, i);
        if first.None? {
          return Malformed;
        }
        ReservedIsAscii(first.value);
        if first.value < 0x80 && Reserved(first.value) {
          AfterAfter(decoded, str[i..i + 3], DecodedFrom(str, i + 3));
          decoded := decoded + str[i..i + 3];
          i := i + 3;
          continue;
        }
        var expected := Follow(first.value);
        if expected.None? {
          return Malformed;
        }
        var bytes := Continue(str, i, first.value, expected.value);
        if bytes.None? {
          return Malformed;
        }
        AfterAfter(decoded, bytes.value, DecodedFrom(str, i + 3 + 3 * expected.value));
        decoded := decoded + bytes.value;
        i := i + 3 + expected.value * 3;
      } else {
        AfterAfter(decoded, [str[i]], DecodedFrom(str, i + 1));
        decoded := decoded + [str[i]];
        i := i + 1;
      }
    }
    AfterNothing(decoded, Malformed);
    return Ok(decoded);
  }

  // ---------- round trip ----------

  /** Every lead byte is followed by as many continuation bytes as it announces. */
  predicate WellFormed(s: Bytes)
    decreases |s|
  {
    s == [] ||
    (Follow(s[0]).Some? && Follow(s[0]).value < |s| && AllContinue(s[1..1 + Follow(s[0]).value])
     && WellFormed(s[1 + Follow(s[0]).value..]))
  }

  predicate AllContinue(s: Bytes) {
    s == [] || (Continues(s[0]) && AllContinue(s[1..]))
  }

  /** What comes back: reserved bytes that were encoded stay encoded. */
  function Returned(safe: Safe, s: Bytes): Bytes {
    if s == [] then []
    else (if Reserved(s[0]) && !Unescaped(safe, s[0]) then Escape(s[0]) else [s[0]]) + Returned(safe, s[1..])
  }

  lemma {:induction false} HexRoundTrip(c: bv8, before: Bytes, after: Bytes)
    ensures HexByte(before + (Escape(c) + after), |before|) == Some(c)
  {
    var s := before + (Escape(c) + after);
    assert s[|before| + 1] == HexDigit(c >> 4) && s[|before| + 2] == HexDigit(c & 0x0F);
    assert HexValue(HexDigit(c >> 4)) == Some(c >> 4) && HexValue(HexDigit(c & 0x0F)) == Some(c & 0x0F);
    assert ((c >> 4) << 4) | (c & 0x0F) == c;
  }

  lemma {:induction false} UnescapedIsPlain(safe: Safe, c: bv8)
    ensures Unescaped(safe, c) ==> c != PERCENT && c < 0x80
  {
  }

  lemma {:induction false} BytesByClass(c: bv8)
    ensures c < 0x80 ==> Follow(c) == Some(0) && !Continues(c)
    ensures Follow(c) == Some(0) ==> c < 0x80
  {
  }

  lemma {:induction false} EscapeShape(c: bv8)
    ensures |Escape(c)| == 3 && Escape(c)[0] == PERCENT
  {
  }

  lemma {:induction false} EncodedSplits(safe: Safe, a: Bytes, b: Bytes)
    ensures Encoded(safe, a + b) == Encoded(safe, a) + Encoded(safe, b)
  {
    hide Unescaped, Escape;
    if a == [] {
      assert a + b == b;
    } else {
      assert (a + b)[1..] == a[1..] + b && (a + b)[0] == a[0];
      EncodedSplits(safe, a[1..], b);
      ghost var first := if Unescaped(safe, a[0]) then [a[0]] else Escape(a[0]);
      assert first + (Encoded(safe, a[1..]) + Encoded(safe, b)) == first + Encoded(safe, a[1..]) + Encoded(safe, b);
    }
  }

  lemma {:induction false} ReturnedSplits(safe: Safe, a: Bytes, b: Bytes)
    ensures Returned(safe, a + b) == Returned(safe, a) + Returned(safe, b)
  {
    hide Unescaped, Reserved, Escape;
    if a == [] {
      assert a + b == b;
    } else {
      assert (a + b)[1..] == a[1..] + b && (a + b)[0] == a[0];
      ReturnedSplits(safe, a[1..], b);
      ghost var first := if Reserved(a[0]) && !Unescaped(safe, a[0]) then Escape(a[0]) else [a[0]];
      assert first + (Returned(safe, a[1..]) + Returned(safe, b)) == first + Returned(safe, a[1..]) + Returned(safe, b);
    }
  }

  lemma {:induction false} ContinuationsEncoded(safe: Safe, a: Bytes)
    requires AllContinue(a)
    ensures |Encoded(safe, a)| == 3 * |a| && Returned(safe, a) == a
  {
    hide Unescaped, Reserved, Escape, Continues;
    if a != [] {
      ByteFacts(safe, a[0]);
      ContinuationsEncoded(safe, a[1..]);
      assert [a[0]] + a[1..] == a;
    }
  }

  lemma {:induction false} ByteFacts(safe: Safe, c: bv8)
    ensures Unescaped(safe, c) ==> c != PERCENT && Follow(c) == Some(0)
    ensures Reserved(c) ==> Follow(c) == Some(0)
    ensures Follow(c) == Some(0) ==> !Continues(c)
    ensures Unescaped(safe, c) || Reserved(c) ==> !Continues(c)
    ensures |Escape(c)| == 3 && Escape(c)[0] == PERCENT
  {
    UnescapedIsPlain(safe, c);
    ReservedIsAscii(c);
    BytesByClass(c);
    EscapeShape(c);
  }

  lemma {:induction false} ContinuationStep(before: Bytes, c: bv8, rest: Bytes, n: nat)
    requires n > 0
    ensures var str, next := before + (Escape(c) + rest), Continuation(before + Escape(c) + rest, |before| + 3, n - 1);
            Continuation(str, |before|, n)
            == if Continues(c) && next.Some? then Some([c] + next.value) else None
  {
    hide HexByte, Escape, Continues;
    HexRoundTrip(c, before, rest);
    EscapeShape(c);
    var str := before + (Escape(c) + rest);
    assert str == before + Escape(c) + rest && str[|before|] == Escape(c)[0];
  }

  /** The decoder finds the announced continuation bytes exactly when they were there to encode. */
  lemma {:induction false} ContinuationOfEncoded(safe: Safe, before: Bytes, t: Bytes, n: nat)
    ensures Continuation(before + Encoded(safe, t), |before|, n)
            == if n <= |t| && AllContinue(t[..n]) then Some(t[..n]) else None
    decreases n
  {
    hide Unescaped, Reserved, HexByte, Escape, Continues;
    if n == 0 {
      assert t[..0] == [];
    } else if t != [] {
      var c, rest, str := t[0], Encoded(safe, t[1..]), before + Encoded(safe, t);
      ByteFacts(safe, c);
      assert n <= |t| ==> t[..n][0] == c && t[..n] == [c] + t[1..][..n - 1] && t[..n][1..] == t[1..][..n - 1];
      if Unescaped(safe, c) {
        assert str[|before|] == c;
      } else {
        ContinuationOfEncoded(safe, before + Escape(c), t[1..], n - 1);
        ContinuationStep(before, c, rest, n);
      }
    }
  }

  lemma {:induction false} DecodeStep(before: Bytes, c: bv8, rest: Bytes)
    ensures var b := before + Escape(c);
            DecodedFrom(before + (Escape(c) + rest), |before|)
            == if Reserved(c) then After(Escape(c), DecodedFrom(b + rest, |b|))
            else if Follow(c).None? || Continuation(b + rest, |b|, Follow(c).value).None? then Malformed
            else After([c] + Continuation(b + rest, |b|, Follow(c).value).value,
                       DecodedFrom(b + rest, |b| + 3 * Follow(c).value))
  {
    hide HexByte, Escape, Reserved, Follow, Continuation;
    HexRoundTrip(c, before, rest);
    EscapeShape(c);
    var str, b := before + (Escape(c) + rest), before + Escape(c);
    assert str == b + rest && str[|before|] == Escape(c)[0] && str[|before|..|before| + 3] == Escape(c);
  }

  lemma {:induction false} NoneContinue()
    ensures AllContinue([])
  {
  }

  lemma {:induction false} DecodePlain(safe: Safe, before: Bytes, c: bv8, t: Bytes)
    requires c != PERCENT
    ensures DecodedFrom(before + ([c] + Encoded(safe, t)), |before|)
            == After([c], DecodedFrom(before + [c] + Encoded(safe, t), |before + [c]|))
  {
    assert before + ([c] + Encoded(safe, t)) == before + [c] + Encoded(safe, t);
  }

  lemma {:induction false} DecodeContinued(safe: Safe, b: Bytes, t: Bytes, n: nat)
    requires n <= |t| && AllContinue(t[..n])
    ensures b + Encoded(safe, t) == b + Encoded(safe, t[..n]) + Encoded(safe, t[n..])
    ensures |b + Encoded(safe, t[..n])| == |b| + 3 * n
    ensures Returned(safe, t) == t[..n] + Returned(safe, t[n..])
  {
    assert t[..n] + t[n..] == t;
    EncodedSplits(safe, t[..n], t[n..]);
    ReturnedSplits(safe, t[..n], t[n..]);
    ContinuationsEncoded(safe, t[..n]);
  }

  lemma {:induction false} DecodeNothing(before: Bytes)
    ensures DecodedFrom(before + [], |before|) == Ok([])
  {
  }

  lemma {:induction false} DecodeLead(safe: Safe, before: Bytes, c: bv8, t: Bytes)
    requires !Reserved(c)
    ensures var n, b := Follow(c), before + Escape(c);
            DecodedFrom(before + (Escape(c) + Encoded(safe, t)), |before|)
            == if n.None? || n.value > |t| || !AllContinue(t[..n.value]) then Malformed
            else After([c] + t[..n.value],
                       DecodedFrom(b + Encoded(safe, t[..n.value]) + Encoded(safe, t[n.value..]),
                                   |b + Encoded(safe, t[..n.value])|))
  {
    hide Reserved, HexByte, Escape, Follow, Continuation, AllContinue;
    DecodeStep(before, c, Encoded(safe, t));
    if Follow(c).Some? {
      ContinuationOfEncoded(safe, before + Escape(c), t, Follow(c).value);
      if Follow(c).value <= |t| && AllContinue(t[..Follow(c).value]) {
        DecodeContinued(safe, before + Escape(c), t, Follow(c).value);
      }
    }
  }

  ghost predicate DecodesBack(safe: Safe, before: Bytes, s: Bytes) {
    DecodedFrom(before + Encoded(safe, s), |before|) == if WellFormed(s) then Ok(Returned(safe, s)) else Malformed
  }

  lemma {:induction false} LeadDecodesBack(safe: Safe, before: Bytes, c: bv8, t: Bytes, n: nat)
    requires !Unescaped(safe, c) && !Reserved(c) && Follow(c) == Some(n) && n <= |t| && AllContinue(t[..n])
    requires DecodesBack(safe, before + Escape(c) + Encoded(safe, t[..n]), t[n..])
    ensures DecodesBack(safe, before, [c] + t)
  {
    hide Unescaped, Reserved, HexByte, Escape, Continues, Follow, Continuation, AllContinue, DecodedFrom;
    var s := [c] + t;
    assert s[0] == c && s[1..] == t && t[..n] == s[1..1 + n] && t[n..] == s[1 + n..];
    DecodeLead(safe, before, c, t);
    DecodeContinued(safe, before + Escape(c), t, n);
    assert Returned(safe, s) == [c] + Returned(safe, t);
    assert [c] + (t[..n] + Returned(safe, t[n..])) == [c] + t[..n] + Returned(safe, t[n..]);
  }

  /** Decoding an encoding, whatever precedes it. */
  lemma {:induction false} DecodeEncoded(safe: Safe, before: Bytes, s: Bytes)
    ensures DecodesBack(safe, before, s)
    decreases |s|
  {
    hide Unescaped, Reserved, HexByte, Escape, Continues, Follow, Continuation, AllContinue, DecodedFrom;
    if s == [] {
      DecodeNothing(before);
    } else {
      var c, t := s[0], s[1..];
      ByteFacts(safe, c);
      NoneContinue();
      assert s[1..1] == [];
      if Unescaped(safe, c) {
        DecodePlain(safe, before, c, t);
        DecodeEncoded(safe, before + [c], t);
      } else if Reserved(c) {
        DecodeStep(before, c, Encoded(safe, t));
        DecodeEncoded(safe, before + Escape(c), t);
      } else {
        DecodeLead(safe, before, c, t);
        if Follow(c).Some? && Follow(c).value <= |t| {
          var n := Follow(c).value;
          assert t[..n] == s[1..1 + n] && t[n..] == s[1 + n..];
          if AllContinue(t[..n]) {
            DecodeEncoded(safe, before + Escape(c) + Encoded(safe, t[..n]), t[n..]);
            LeadDecodesBack(safe, before, c, t, n);
            assert s == [c] + t;
          }
        }
      }
    }
  }

  predicate NothingHeldBack(safe: Safe, s: Bytes) {
    s == [] || (!(Reserved(s[0]) && !Unescaped(safe, s[0])) && NothingHeldBack(safe, s[1..]))
  }

  lemma {:induction false} ReturnedLength(safe: Safe, s: Bytes)
    ensures |s| <= |Returned(safe, s)|
    ensures NothingHeldBack(safe, s) ==> Returned(safe, s) == s
    ensures !NothingHeldBack(safe, s) ==> |s| < |Returned(safe, s)|
  {
    hide Unescaped, Reserved, Escape;
    if s != [] {
      EscapeShape(s[0]);
      ReturnedLength(safe, s[1..]);
      assert s == [s[0]] + s[1..];
    }
  }

  /** Decoding undoes encoding exactly for well-formed strings in which no reserved byte was encoded. */
  lemma {:induction false} RoundTrip(safe: Safe, s: Bytes)
    ensures DecodedFrom(Encoded(safe, s), 0) == Ok(s) <==> WellFormed(s) && NothingHeldBack(safe, s)
    ensures DecodedFrom(Encoded(safe, s), 0) == Malformed <==> !WellFormed(s)
  {
    assert [] + Encoded(safe, s) == Encoded(safe, s);
    DecodeEncoded(safe, [], s);
    ReturnedLength(safe, s);
  }

  lemma {:induction false} WholeUriHoldsNothingBack(s: Bytes)
    ensures NothingHeldBack(WholeUri, s)
  {
    if s != [] {
      assert Reserved(s[0]) ==> Unescaped(WholeUri, s[0]);
      WholeUriHoldsNothingBack(s[1..]);
    }
  }

  /** decodeURI undoes encodeURI exactly for the strings with well-formed lead and continuation bytes. */
  lemma {:induction false} UriRoundTrip(s: Bytes)
    ensures DecodedFrom(Encoded(WholeUri, s), 0) == if WellFormed(s) then Ok(s) else Malformed
  {
    RoundTrip(WholeUri, s);
    WholeUriHoldsNothingBack(s);
  }

  /** decodeURIComponent does not undo encodeURIComponent for a single "/". */
  lemma {:induction false} ComponentSlashStays()
    ensures WellFormed([0x2F]) && DecodedFrom(Encoded(Component, [0x2F]), 0) != Ok([0x2F])
  {
    hide Unescaped, Reserved, DecodedFrom, Encoded;
    SlashIsHeldBack();
    NoneContinue();
    ReservedIsAscii(0x2F);
    BytesByClass(0x2F);
    assert [0x2F as bv8][1..1] == [];
    RoundTrip(Component, [0x2F]);
  }

  lemma {:induction false} SlashIsHeldBack()
    ensures Reserved(0x2F) && !Unescaped(Component, 0x2F) && Unescaped(WholeUri, 0x2F)
  {
  }

  // ---------- the characters ----------

  const ALPHANUMERIC := L.UPPER + L.LOWER + "0123456789"
  const HEX := "0123456789ABCDEF"

  /** The characters that each encoder leaves alone. */
  function Alone(safe: Safe): string {
    match safe
    case WholeUri => ALPHANUMERIC + "-._~:/?#@!$&'()*+,;="
    case Component => ALPHANUMERIC + "-_.!~*'()"
  }

  lemma {:induction false} AmongAlphaNumeric(n: int)
    ensures L.Among(n, ALPHANUMERIC) <==> 65 <= n <= 90 || 97 <= n <= 122 || 48 <= n <= 57
  {
    hide L.Among;
    L.AmongRanges(n);
    L.AmongBoth(n, L.UPPER, L.LOWER);
    L.AmongBoth(n, L.UPPER + L.LOWER, "0123456789");
  }

  lemma {:induction false} AlphaNumericRanges(c: bv8)
    ensures var n := c as int; AlphaNumeric(c) <==> 65 <= n <= 90 || 97 <= n <= 122 || 48 <= n <= 57
  {
  }

  const WHOLE_MARKS := "-._~:/?#@!$&'()*+,;="
  const WHOLE_CODES := [45, 46, 95, 126, 58, 47, 63, 35, 64, 33, 36, 38, 39, 40, 41, 42, 43, 44, 59, 61]
  const COMPONENT_MARKS := "-_.!~*'()"
  const COMPONENT_CODES := [45, 95, 46, 33, 126, 42, 39, 40, 41]
  const RESERVED_MARKS := ";,/?:@&=+$#"
  const RESERVED_CODES := [59, 44, 47, 63, 58, 64, 38, 61, 43, 36, 35]

  lemma {:induction false} AmongCodes(n: int, text: string, codes: seq<int>)
    requires |text| == |codes| && forall i | 0 <= i < |text| :: text[i] as int == codes[i]
    ensures L.Among(n, text) <==> n in codes
  {
    if n in codes {
      var i :| 0 <= i < |codes| && codes[i] == n;
      assert text[i] as int == n;
    }
  }

  lemma {:induction false} WholeCodes(k: nat)
    requires k < 20
    ensures WHOLE_MARKS[k] as int == WHOLE_CODES[k]
  {
    assert k == 0 || k == 1 || k == 2 || k == 3 || k == 4 || k == 5 || k == 6 || k == 7 || k == 8 || k == 9 || k == 10
           || k == 11 || k == 12 || k == 13 || k == 14 || k == 15 || k == 16 || k == 17 || k == 18 || k == 19;
  }

  lemma {:induction false} OtherCodes(k: nat)
    requires k < 11
    ensures RESERVED_MARKS[k] as int == RESERVED_CODES[k]
    ensures k < 9 ==> COMPONENT_MARKS[k] as int == COMPONENT_CODES[k]
  {
    assert k == 0 || k == 1 || k == 2 || k == 3 || k == 4 || k == 5 || k == 6 || k == 7 || k == 8 || k == 9 || k == 10;
  }

  predicate WholeMark(n: int) {
    n == 45 || n == 46 || n == 95 || n == 126 || n == 58 || n == 47 || n == 63 || n == 35 || n == 64 || n == 33
    || n == 36 || n == 38 || n == 39 || n == 40 || n == 41 || n == 42 || n == 43 || n == 44 || n == 59 || n == 61
  }

  predicate ComponentMark(n: int) {
    n == 45 || n == 95 || n == 46 || n == 33 || n == 126 || n == 42 || n == 39 || n == 40 || n == 41
  }

  predicate ReservedMark(n: int) {
    n == 59 || n == 44 || n == 47 || n == 63 || n == 58 || n == 64 || n == 38 || n == 61 || n == 43 || n == 36 || n == 35
  }

  lemma {:induction false} CodesAreMarks(n: int)
    ensures n in WHOLE_CODES <==> WholeMark(n)
    ensures n in COMPONENT_CODES <==> ComponentMark(n)
    ensures n in RESERVED_CODES <==> ReservedMark(n)
  {
  }

  lemma {:induction false} AmongMarks(n: int)
    ensures L.Among(n, WHOLE_MARKS) <==> WholeMark(n)
    ensures L.Among(n, COMPONENT_MARKS) <==> ComponentMark(n)
    ensures L.Among(n, RESERVED_MARKS) <==> ReservedMark(n)
  {
    forall k | 0 <= k < 20 ensures WHOLE_MARKS[k] as int == WHOLE_CODES[k] {
      WholeCodes(k);
    }
    forall k | 0 <= k < 11
      ensures RESERVED_MARKS[k] as int == RESERVED_CODES[k]
      ensures k < 9 ==> COMPONENT_MARKS[k] as int == COMPONENT_CODES[k]
    {
      OtherCodes(k);
    }
    hide L.Among, WholeMark, ComponentMark, ReservedMark;
    CodesAreMarks(n);
    AmongCodes(n, WHOLE_MARKS, WHOLE_CODES);
    AmongCodes(n, COMPONENT_MARKS, COMPONENT_CODES);
    AmongCodes(n, RESERVED_MARKS, RESERVED_CODES);
  }

  lemma {:induction false} MarkCodes(c: bv8)
    ensures Unescaped(WholeUri, c) <==> AlphaNumeric(c) || WholeMark(c as int)
    ensures Unescaped(Component, c) <==> AlphaNumeric(c) || ComponentMark(c as int)
    ensures Reserved(c) <==> ReservedMark(c as int)
  {
    hide AlphaNumeric;
  }

  lemma {:induction false} WholeMarksAre(c: bv8)
    ensures Unescaped(WholeUri, c) <==> AlphaNumeric(c) || L.Among(c as int, WHOLE_MARKS)
  {
    hide Unescaped, Reserved, AlphaNumeric, L.Among, WholeMark, ComponentMark, ReservedMark;
    MarkCodes(c);
    AmongMarks(c as int);
  }

  lemma {:induction false} ComponentMarksAre(c: bv8)
    ensures Unescaped(Component, c) <==> AlphaNumeric(c) || L.Among(c as int, COMPONENT_MARKS)
  {
    hide Unescaped, Reserved, AlphaNumeric, L.Among, WholeMark, ComponentMark, ReservedMark;
    MarkCodes(c);
    AmongMarks(c as int);
  }

  lemma {:induction false} ReservedMarksAre(c: bv8)
    ensures Reserved(c) <==> L.Among(c as int, RESERVED_MARKS)
  {
    hide Unescaped, Reserved, AlphaNumeric, L.Among, WholeMark, ComponentMark, ReservedMark;
    MarkCodes(c);
    AmongMarks(c as int);
  }

  /** Exactly the characters of these texts are left alone, and kept encoded. */
  lemma {:induction false} LeftAlone(safe: Safe, c: bv8)
    ensures Unescaped(safe, c) <==> L.Among(c as int, Alone(safe))
    ensures Reserved(c) <==> L.Among(c as int, ";,/?:@&=+$#")
  {
    hide Unescaped, Reserved, AlphaNumeric, L.Among;
    WholeMarksAre(c);
    ComponentMarksAre(c);
    ReservedMarksAre(c);
    AlphaNumericRanges(c);
    AmongAlphaNumeric(c as int);
    L.AmongBoth(c as int, ALPHANUMERIC, WHOLE_MARKS);
    L.AmongBoth(c as int, ALPHANUMERIC, COMPONENT_MARKS);
  }

  lemma {:induction false} HexIs(v: bv8)
    requires v < 16
    ensures (v as int) < 16 && HexDigit(v) as int == HEX[v as int] as int
  {
    var k := v as int;
    assert HexDigit(v) as int == if k < 10 then k + 48 else k + 55;
    hide HexDigit;
    assert k == 0 || k == 1 || k == 2 || k == 3 || k == 4 || k == 5 || k == 6 || k == 7 || k == 8 || k == 9 || k == 10
           || k == 11 || k == 12 || k == 13 || k == 14 || k == 15;
  }

  lemma {:induction false} Halves(c: bv8)
    ensures (c >> 4) as int == c as int / 16 && (c & 0x0F) as int == c as int % 16 && c >> 4 < 16 && c & 0x0F < 16
  {
  }

  /** What an encoding consists of: byte for byte the character itself, or '%' and two capital hexadecimal digits. */
  lemma {:induction false} EncodedIs(safe: Safe, front: Bytes, c: bv8, back: Bytes)
    ensures exists piece ::
              && Encoded(safe, front + [c] + back) == Encoded(safe, front) + piece + Encoded(safe, back)
              && if L.Among(c as int, Alone(safe)) then piece == [c]
                 else |piece| == 3 && piece[0] as int == '%' as int
                      && piece[1] as int == HEX[c as int / 16] as int && piece[2] as int == HEX[c as int % 16] as int
  {
    hide Unescaped, HexDigit, L.Among, Alone;
    LeftAlone(safe, c);
    EncodedSplits(safe, front + [c], back);
    EncodedSplits(safe, front, [c]);
    Halves(c);
    HexIs(c >> 4);
    HexIs(c & 0x0F);
    assert [c][1..] == [];
    var piece := Encoded(safe, [c]);
    assert piece == if Unescaped(safe, c) then [c] else Escape(c);
  }

  /** The decoder takes hexadecimal digits in either case. */
  lemma {:induction false} HexValueIs(c: bv8, v: bv8)
    requires v < 16
    ensures HexValue(c) == Some(v) <==> c == HexDigit(v) || (v >= 10 && c == HexDigit(v) + 0x20)
  {
  }

  /** Lead and continuation bytes, by their ranges. */
  lemma {:induction false} BytesByRange(c: bv8)
    ensures Follow(c) == (if c < 0x80 then Some(0) else if 0xC0 <= c < 0xE0 then Some(1) else if 0xE0 <= c < 0xF0 then Some(2)
                          else if 0xF0 <= c < 0xF8 then Some(3) else None)
    ensures Continues(c) <==> 0x80 <= c < 0xC0
  {
  }

  /** Text without a percent sign decodes to itself. */
  lemma {:induction false} PlainDecodes(s: Bytes, i: nat)
    requires i <= |s| && forall k | i <= k < |s| :: s[k] != 0x25
    ensures DecodedFrom(s, i) == Ok(s[i..])
    decreases |s| - i
  {
    if i < |s| {
      PlainDecodes(s, i + 1);
      assert [s[i]] + s[i + 1..] == s[i..];
    }
  }

  /** The first percent sign without two hexadecimal digits behind it makes a text malformed. */
  lemma {:induction false} StrayPercent(s: Bytes, i: nat, j: nat)
    requires i <= j < |s| && s[j] == 0x25 && forall k | i <= k < j :: s[k] != 0x25
    requires j + 2 >= |s| || HexValue(s[j + 1]).None? || HexValue(s[j + 2]).None?
    ensures DecodedFrom(s, i) == Malformed
    decreases j - i
  {
    if i < j { StrayPercent(s, i + 1, j); }
  }
}
