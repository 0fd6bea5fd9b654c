/** The string helpers of src/Lib/StringOps that the parsers are built from.
    A `string` stands for a byte string: every byte is the character with that code. */
module StringOps {

  /** The largest value of a 64-bit size_t. */
  const SIZE_MAX: nat := 0xFFFF_FFFF_FFFF_FFFF

  const CRLF: string := "\r\n"

  datatype Option<+T> = None | Some(value: T)

  // ---------- searching ----------

  predicate At(s: string, p: string, i: nat) {
    i + |p| <= |s| && s[i..i + |p|] == p
  }

  /** std::string::find: the least index at or after `from` where `p` occurs. */
  function Find(s: string, p: string, from: nat): (r: Option<nat>)
    ensures r.Some? ==> from <= r.value <= r.value + |p| <= |s|
    decreases |s| - from
  {
    if from + |p| > |s| then None
    else if At(s, p, from) then Some(from)
    else Find(s, p, from + 1)
  }

  /** The hit is the first one, and a miss means there is none. */
  lemma {:induction false} FindFirst(s: string, p: string, from: nat)
    ensures var r := Find(s, p, from);
            && (r.Some? ==> At(s, p, r.value))
            && forall j: nat | from <= j && (r.None? || j < r.value) :: !At(s, p, j)
    decreases |s| - from
  {
    if from + |p| <= |s| && !At(s, p, from) {
      FindFirst(s, p, from + 1);
    }
  }

  lemma {:induction false} FindIs(s: string, p: string, from: nat, i: nat)
    requires from <= i && At(s, p, i) && forall j: nat | from <= j < i :: !At(s, p, j)
    ensures Find(s, p, from) == Some(i)
  {
    FindFirst(s, p, from);
  }

  /** Bytes that arrive later never move a hit that is already there. */
  lemma {:induction false} FindStable(s: string, t: string, p: string, from: nat)
    requires Find(s, p, from).Some?
    ensures Find(s + t, p, from) == Find(s, p, from)
    decreases |s| - from
  {
    assert (s + t)[from..from + |p|] == s[from..from + |p|];
    if !At(s, p, from) {
      FindStable(s, t, p, from + 1);
    }
  }

  lemma {:induction false} FindSkip(s: string, p: string, from: nat, k: nat)
    requires from <= k && k + |p| <= |s| && forall j: nat | from <= j < k :: !At(s, p, j)
    ensures Find(s, p, from) == Find(s, p, k)
    decreases k - from
  {
    if from < k {
      assert !At(s, p, from);
      FindSkip(s, p, from + 1, k);
    }
  }

  /** Searching a suffix is searching the whole from further on. */
  lemma {:induction false} FindDrop(s: string, p: string, k: nat, from: nat)
    requires k <= |s|
    ensures Find(s[k..], p, from)
         == match Find(s, p, k + from) case None => None case Some(i) => Some(i - k)
    decreases |s| - from
  {
    if k + from + |p| <= |s| {
      assert s[k..][from..from + |p|] == s[k + from..k + from + |p|];
      FindDrop(s, p, k, from + 1);
    }
  }

  lemma {:induction false} FindAppend(pre: string, tail: string, p: string, from: nat)
    ensures var r, q := Find(pre + tail, p, |pre| + from), Find(tail, p, from);
            r.Some? == q.Some? && (r.Some? ==> r.value == |pre| + q.value)
    decreases |tail| - from
  {
    if from + |p| <= |tail| {
      assert (pre + tail)[|pre| + from..|pre| + from + |p|] == tail[from..from + |p|];
      FindAppend(pre, tail, p, from + 1);
    }
  }

  /** A prefix without hits only shifts the hit. */
  lemma {:induction false} FindBehind(pre: string, tail: string, p: string)
    requires Find(tail, p, 0).Some? && forall j: nat | j < |pre| :: !At(pre + tail, p, j)
    ensures var r := Find(pre + tail, p, 0); r.Some? && r.value == |pre| + Find(tail, p, 0).value
  {
    FindSkip(pre + tail, p, 0, |pre|);
    FindAppend(pre, tail, p, 0);
  }

  ghost predicate NoCrlf(s: string) {
    forall j: nat :: !At(s, CRLF, j)
  }

  lemma {:induction false} NoLfNoCrlf(s: string)
    requires '\n' !in s
    ensures NoCrlf(s)
  {
    forall j: nat ensures !At(s, CRLF, j) {
      if j + 2 <= |s| {
        assert s[j..j + 2][1] == s[j + 1] && s[j + 1] in s;
      }
    }
  }

  /** A line ends at the CRLF that follows it, whatever comes after. */
  lemma {:induction false} FindEndOfLine(line: string, rest: string)
    requires NoCrlf(line)
    ensures Find(line + CRLF + rest, CRLF, 0) == Some(|line|)
  {
    var s := line + CRLF + rest;
    assert s[|line|..|line| + 2] == CRLF;
    forall j: nat | j < |line| ensures !At(s, CRLF, j) {
      if j + 2 <= |line| {
        assert s[j..j + 2] == line[j..j + 2];
        assert !At(line, CRLF, j);
      } else {
        assert s[j..j + 2][1] == s[j + 1] == '\r';
      }
    }
    FindIs(s, CRLF, 0, |line|);
  }

  /** Everything before the first `c`, or all of `s`. */
  function UpTo(s: string, c: char): (r: string)
    ensures r <= s && (|r| < |s| ==> s[|r|] == c)
  {
    if s == [] || s[0] == c then [] else [s[0]] + UpTo(s[1..], c)
  }

  lemma {:induction false} UpToFree(s: string, c: char)
    ensures c !in UpTo(s, c)
    decreases |s|
  {
    if s != [] && s[0] != c { UpToFree(s[1..], c); }
  }

  // ---------- letter case and blanks ----------

  function LowerChar(c: char): char {
    if 'A' <= c <= 'Z' then c - 'A' + 'a' else c
  }

  function ToLower(s: string): (r: string)
    ensures |r| == |s| && forall i | 0 <= i < |s| :: r[i] == LowerChar(s[i])
  {
    seq(|s|, i requires 0 <= i < |s| => LowerChar(s[i]))
  }

  function TrimLeft(s: string, chars: string): (r: string)
    ensures r != [] ==> r[0] !in chars
  {
    if s != [] && s[0] in chars then TrimLeft(s[1..], chars) else s
  }

  function TrimRight(s: string, chars: string): (r: string)
    ensures r != [] ==> r[|r| - 1] !in chars
  {
    if s != [] && s[|s| - 1] in chars then TrimRight(s[..|s| - 1], chars) else s
  }

  function Trim(s: string, chars: string): string {
    TrimRight(TrimLeft(s, chars), chars)
  }

  lemma {:induction false} TrimLeftSkips(pre: string, rest: string, chars: string)
    requires forall c | c in pre :: c in chars
    ensures TrimLeft(pre + rest, chars) == TrimLeft(rest, chars)
    decreases |pre|
  {
    if pre == [] {
      assert pre + rest == rest;
    } else {
      assert pre[0] in pre;
      assert (pre + rest)[1..] == pre[1..] + rest;
      TrimLeftSkips(pre[1..], rest, chars);
    }
  }

  lemma {:induction false} TrimRightSkips(rest: string, post: string, chars: string)
    requires forall c | c in post :: c in chars
    ensures TrimRight(rest + post, chars) == TrimRight(rest, chars)
    decreases |post|
  {
    if post == [] {
      assert rest + post == rest;
    } else {
      assert post[|post| - 1] in post;
      assert (rest + post)[..|rest + post| - 1] == rest + post[..|post| - 1];
      TrimRightSkips(rest, post[..|post| - 1], chars);
    }
  }

  /** Padding made of trimmed characters disappears, the core stays. */
  lemma {:induction false} TrimPadded(pre: string, core: string, post: string, chars: string)
    requires forall c | c in pre || c in post :: c in chars
    requires core != [] ==> core[0] !in chars && core[|core| - 1] !in chars
    ensures Trim(pre + core + post, chars) == core
  {
    assert pre + core + post == pre + (core + post);
    TrimLeftSkips(pre, core + post, chars);
    if core == [] {
      TrimLeftSkips(post, [], chars);
      assert core + post == post + [];
    } else {
      TrimRightSkips(core, post, chars);
    }
  }

  /** StringOps::trim, with the two index loops of the source. */
  method TrimIndices(s: string, chars: string) returns (r: string)
    ensures r == Trim(s, chars)
  {
    var start := 0;
    while start < |s| && s[start] in chars
      invariant start <= |s|
      invariant TrimLeft(s, chars) == TrimLeft(s[start..], chars)
    {
      assert s[start..][0] == s[start] && s[start..][1..] == s[start + 1..];
      start := start + 1;
    }
    ghost var left := s[start..];
    var end := |s|;
    assert left[..end - start] == left;
    while end > start && s[end - 1] in chars
      invariant start <= end <= |s|
      invariant TrimRight(left, chars) == TrimRight(left[..end - start], chars)
    {
      ghost var l := left[..end - start];
      assert l[|l| - 1] == s[end - 1] && l[..|l| - 1] == left[..end - 1 - start];
      end := end - 1;
    }
    r := s[start..end];
    assert r == left[..end - start];
  }

  // ---------- numerals ----------

  type Radix = b: nat | b == 10 || b == 16 witness 10

  function Digit(base: Radix, c: char): (r: Option<nat>)
    ensures r.Some? ==> r.value < base
  {
    if '0' <= c <= '9' then Some((c - '0') as nat)
    else if base == 16 && 'a' <= c <= 'f' then Some((c - 'a') as nat + 10)
    else if base == 16 && 'A' <= c <= 'F' then Some((c - 'A') as nat + 10)
    else None
  }

  ghost predicate Digits(base: Radix, s: string) {
    forall i | 0 <= i < |s| :: Digit(base, s[i]).Some?
  }

  /** The number a digit string denotes, with no bound. */
  ghost function Value(base: Radix, s: string): nat
    requires Digits(base, s)
  {
    if s == [] then 0
    else Value(base, s[..|s| - 1]) * base + Digit(base, s[|s| - 1]).value
  }

  /** One scan from the left. The second component is what the out-parameter holds when
      the scan stops, also on failure. */
  function Scan(base: Radix, s: string, acc: nat): (bool, nat) {
    if s == [] then (true, acc)
    else
      match Digit(base, s[0])
      case None => (false, acc)
      case Some(d) =>
        if acc > SIZE_MAX / base || (acc == SIZE_MAX / base && d > SIZE_MAX % base) then (false, acc)
        else Scan(base, s[1..], acc * base + d)
  }

  function ParseSize(base: Radix, s: string): (bool, nat) {
    if s == [] then (false, 0) else Scan(base, s, 0)
  }

  /** decStrToSize and hexStrToSize: the guarded accumulation loop. */
  method StrToSize(base: Radix, s: string) returns (ok: bool, result: nat)
    ensures (ok, result) == ParseSize(base, s)
  {
    result := 0;
    if |s| == 0 {
      return false, 0;
    }
    var maxDiv, maxMod := SIZE_MAX / base, SIZE_MAX % base;
    for i := 0 to |s|
      invariant Scan(base, s[i..], result) == ParseSize(base, s)
    {
      var d := Digit(base, s[i]);
      if d.None? {
        return false, result;
      }
      if result > maxDiv || (result == maxDiv && d.value > maxMod) {
        return false, result;
      }
      result := result * base + d.value;
    }
    ok := true;
  }

  ghost function ValueFrom(base: Radix, s: string, acc: nat): nat
    requires Digits(base, s)
  {
    if s == [] then acc else ValueFrom(base, s[1..], acc * base + Digit(base, s[0]).value)
  }

  lemma {:induction false} ValueFromGrows(base: Radix, s: string, acc: nat)
    requires Digits(base, s)
    ensures ValueFrom(base, s, acc) >= acc
    decreases |s|
  {
    if s != [] {
      var d := Digit(base, s[0]).value;
      ValueFromGrows(base, s[1..], acc * base + d);
      assert acc * base >= acc;
    }
  }

  lemma {:induction false} ValueFromLast(base: Radix, s: string, acc: nat)
    requires Digits(base, s) && s != []
    ensures ValueFrom(base, s, acc)
         == ValueFrom(base, s[..|s| - 1], acc) * base + Digit(base, s[|s| - 1]).value
    decreases |s|
  {
    if |s| > 1 {
      ValueFromLast(base, s[1..], acc * base + Digit(base, s[0]).value);
      assert s[1..][..|s| - 2] == s[..|s| - 1][1..];
    }
  }

  lemma {:induction false} ValueFromZero(base: Radix, s: string)
    requires Digits(base, s)
    ensures ValueFrom(base, s, 0) == Value(base, s)
    decreases |s|
  {
    if s != [] {
      ValueFromLast(base, s, 0);
      ValueFromZero(base, s[..|s| - 1]);
    }
  }

  lemma {:induction false} GuardIsOverflow(base: Radix, acc: nat, d: nat)
    requires d < base
    ensures (acc > SIZE_MAX / base || (acc == SIZE_MAX / base && d > SIZE_MAX % base))
       <==> acc * base + d > SIZE_MAX
  {
    if base == 10 {
      assert SIZE_MAX == 10 * (SIZE_MAX / 10) + SIZE_MAX % 10;
    } else {
      assert SIZE_MAX == 16 * (SIZE_MAX / 16) + SIZE_MAX % 16;
    }
  }

  lemma {:induction false} ScanExact(base: Radix, s: string, acc: nat)
    requires acc <= SIZE_MAX
    ensures Scan(base, s, acc).0 <==> Digits(base, s) && ValueFrom(base, s, acc) <= SIZE_MAX
    ensures Scan(base, s, acc).0 ==> Scan(base, s, acc).1 == ValueFrom(base, s, acc)
    decreases |s|
  {
    if s != [] {
      var d := Digit(base, s[0]);
      if d.Some? {
        GuardIsOverflow(base, acc, d.value);
        var next := acc * base + d.value;
        assert Digits(base, s) <==> Digits(base, s[1..]) by {
          if Digits(base, s[1..]) {
            forall i | 0 <= i < |s| ensures Digit(base, s[i]).Some? {
              if i > 0 { assert s[i] == s[1..][i - 1]; }
            }
          }
        }
        if next > SIZE_MAX {
          if Digits(base, s) { ValueFromGrows(base, s[1..], next); }
        } else {
          ScanExact(base, s[1..], next);
        }
      }
    }
  }

  /** The overflow-guarded scan accepts exactly the non-empty digit strings whose value fits
      size_t, and returns that value. */
  lemma {:induction false} ParseSizeExact(base: Radix, s: string)
    ensures ParseSize(base, s).0 <==> s != [] && Digits(base, s) && Value(base, s) <= SIZE_MAX
    ensures ParseSize(base, s).0 ==> ParseSize(base, s).1 == Value(base, s)
  {
    if s != [] {
      ScanExact(base, s, 0);
      if Digits(base, s) { ValueFromZero(base, s); }
    }
  }

  // ---------- splitting ----------

  /** The pieces between the occurrences of `c`; there is always at least one. */
  function Split(s: string, c: char): (r: seq<string>)
    ensures |r| > 0
    decreases |s|
  {
    var head := UpTo(s, c);
    if |head| == |s| then [head] else [head] + Split(s[|head| + 1..], c)
  }

  lemma {:induction false} SplitPiecesAreFree(s: string, c: char)
    ensures forall i | 0 <= i < |Split(s, c)| :: c !in Split(s, c)[i]
    decreases |s|
  {
    var head := UpTo(s, c);
    UpToFree(s, c);
    if |head| < |s| {
      SplitPiecesAreFree(s[|head| + 1..], c);
    }
  }

  function Join(parts: seq<string>, sep: string): string {
    if |parts| == 0 then "" else if |parts| == 1 then parts[0] else parts[0] + sep + Join(parts[1..], sep)
  }

  lemma {:induction false} JoinSplit(s: string, c: char)
    ensures Join(Split(s, c), [c]) == s
    decreases |s|
  {
    hide Join;
    var head := UpTo(s, c);
    if |head| < |s| {
      var tail := s[|head| + 1..];
      JoinSplit(tail, c);
      JoinFirst(head, Split(tail, c), [c]);
      assert Split(s, c) == [head] + Split(tail, c);
      assert s == head + [c] + tail;
    } else {
      assert head == s;
      JoinFirst(head, [], [c]);
      assert [head] + [] == [head];
    }
  }

  lemma {:induction false} JoinFirst(first: string, more: seq<string>, sep: string)
    ensures Join([first] + more, sep) == if more == [] then first else first + sep + Join(more, sep)
  {
    assert ([first] + more)[1..] == more;
  }

  lemma {:induction false} UpToIs(s: string, c: char, u: string)
    requires u <= s && c !in u && (|u| < |s| ==> s[|u|] == c)
    ensures UpTo(s, c) == u
    decreases |s|
  {
    if u != [] {
      assert s[0] == u[0] && u[0] in u;
      UpToIs(s[1..], c, u[1..]);
    }
  }

  lemma {:induction false} SplitOnce(head: string, tail: string, c: char)
    requires c !in head
    ensures Split(head, c) == [head] && Split(head + [c] + tail, c) == [head] + Split(tail, c)
  {
    hide UpTo;
    var s := head + [c] + tail;
    UpToIs(head, c, head);
    UpToIs(s, c, head);
    assert s[|head| + 1..] == tail;
  }

  lemma {:induction false} SplitConcat(a: string, b: string, c: char)
    ensures Split(a + [c] + b, c) == Split(a, c) + Split(b, c)
    decreases |a|
  {
    hide Split, UpTo;
    var head := UpTo(a, c);
    UpToFree(a, c);
    if |head| == |a| {
      assert head == a;
      SplitOnce(a, b, c);
    } else {
      var tail := a[|head| + 1..];
      assert a == head + [c] + tail;
      SplitOnce(head, tail, c);
      assert a + [c] + b == head + [c] + (tail + [c] + b);
      SplitOnce(head, tail + [c] + b, c);
      SplitConcat(tail, b, c);
      Associates([head], Split(tail, c), Split(b, c));
    }
  }

  lemma {:induction false} SplitJoin(parts: seq<string>, c: char)
    requires |parts| > 0 && forall i | 0 <= i < |parts| :: c !in parts[i]
    ensures Split(Join(parts, [c]), c) == parts
    decreases |parts|
  {
    if |parts| == 1 {
      UpToIs(parts[0], c, parts[0]);
    } else {
      SplitJoin(parts[1..], c);
      var rest := Join(parts[1..], [c]);
      UpToIs(Join(parts, [c]), c, parts[0]);
      assert Join(parts, [c])[|parts[0]| + 1..] == rest;
    }
  }

  /** std::string::find for one character. */
  function FindChar(s: string, c: char, from: nat): (r: Option<nat>)
    ensures r.Some? ==> from <= r.value < |s| && s[r.value] == c
    decreases |s| - from
  {
    if from >= |s| then None else if s[from] == c then Some(from) else FindChar(s, c, from + 1)
  }

  lemma {:induction false} FindCharFirst(s: string, c: char, from: nat)
    ensures var r := FindChar(s, c, from);
            forall j | from <= j < (if r.None? then |s| else r.value) :: s[j] != c
    decreases |s| - from
  {
    if from < |s| && s[from] != c { FindCharFirst(s, c, from + 1); }
  }

  lemma {:induction false} UpToIsFind(s: string, c: char, start: nat)
    requires start <= |s|
    ensures UpTo(s[start..], c)
         == match FindChar(s, c, start) case None => s[start..] case Some(i) => s[start..i]
    decreases |s| - start
  {
    if start < |s| && s[start] != c {
      UpToIsFind(s, c, start + 1);
      assert s[start..][1..] == s[start + 1..];
    }
  }

  lemma {:induction false} SplitStep(s: string, c: char, start: nat)
    requires start <= |s|
    ensures Split(s[start..], c) ==
            match FindChar(s, c, start)
            case None => [s[start..]]
            case Some(i) => [s[start..i]] + Split(s[i + 1..], c)
  {
    hide FindChar, UpTo;
    UpToIsFind(s, c, start);
    var t := s[start..];
    var r := FindChar(s, c, start);
    if r.None? {
      assert Split(t, c) == [t];
    } else {
      var h := s[start..r.value];
      assert UpTo(t, c) == h;
      assert |h| < |t|;
      assert t[|h| + 1..] == s[r.value + 1..];
      assert Split(t, c) == [h] + Split(t[|h| + 1..], c);
    }
  }

  // ---------- concatenation ----------

  lemma {:induction false} Associates<T>(a: seq<T>, b: seq<T>, c: seq<T>)
    ensures a + (b + c) == a + b + c
  {
  }

  /** What is read of `a + b`, and then of what is left followed by `c`, is what is read of all three. */
  lemma {:induction false} Regroup<T>(
      a: seq<T>, b: seq<T>, c: seq<T>, first: seq<T>, mid: seq<T>, more: seq<T>, left: seq<T>)
    requires a + b == first + mid && mid + c == more + left
    ensures a + (b + c) == first + more + left
  {
    assert a + (b + c) == (a + b) + c == first + (mid + c) == first + (more + left);
  }

  /** StringOps::split: repeated find, pushing the token before each hit. */
  method SplitTokens(s: string, c: char) returns (tokens: seq<string>)
    ensures tokens == Split(s, c)
  {
    hide FindChar, Split;
    tokens := [];
    var start := 0;
    var end := FindChar(s, c, 0);
    assert s[0..] == s && [] + Split(s, c) == Split(s, c);
    while end.Some?
      invariant start <= |s| && end == FindChar(s, c, start)
      invariant tokens + Split(s[start..], c) == Split(s, c)
      decreases |s| - start
    {
      SplitStep(s, c, start);
      Associates(tokens, [s[start..end.value]], Split(s[end.value + 1..], c));
      tokens := tokens + [s[start..end.value]];
      start := end.value + 1;
      end := FindChar(s, c, start);
    }
    SplitStep(s, c, start);
    tokens := tokens + [s[start..]];
  }
}
