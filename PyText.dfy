// The handful of Python `str` built-ins that the scraper and the scanner rely on,
// stated with Python's own semantics: find, rfind, split, join, replace, strip,
// int() and str() on integers.

module Optional {
  datatype Option<+T> = None | Some(value: T)
}

module PyText {
  import opened Optional

  /** `p` occurs in `s` starting at index `j`. */
  predicate At(s: string, p: string, j: nat) {
    j + |p| <= |s| && s[j..j + |p|] == p
  }

  ghost predicate Occurs(s: string, p: string) {
    exists j: nat :: At(s, p, j)
  }

  /** Python's `s.find(p, i)` for a non-empty `p`: the first occurrence at or after `i`, or -1. */
  function Find(s: string, p: string, i: nat): (r: int)
    requires |p| > 0
    ensures r == -1 || (i <= r && At(s, p, r))
    ensures r >= 0 ==> forall j: nat :: i <= j < r ==> !At(s, p, j)
    ensures r == -1 ==> forall j: nat :: i <= j ==> !At(s, p, j)
    decreases |s| - i
  {
    if i + |p| > |s| then -1
    else if s[i..i + |p|] == p then i
    else Find(s, p, i + 1)
  }

  /** The last occurrence of `p` at or below index `k`, or -1. */
  function RFindBelow(s: string, p: string, k: int): (r: int)
    ensures r == -1 || (0 <= r <= k && At(s, p, r))
    ensures forall j: nat :: r < j <= k ==> !At(s, p, j)
    decreases k + 1
  {
    if k < 0 then -1
    else if At(s, p, k) then k
    else RFindBelow(s, p, k - 1)
  }

  /** Python's `s.rfind(p)`: the last occurrence of `p`, or -1. */
  function RFind(s: string, p: string): (r: int)
    ensures r == -1 || (0 <= r && At(s, p, r))
    ensures forall j: nat :: r < j ==> !At(s, p, j)
  {
    RFindBelow(s, p, |s| - |p|)
  }

  /** An occurrence at `h` with none between `i` and `h` is what `find` reports. */
  lemma FindIs(s: string, p: string, i: nat, h: nat)
    requires |p| > 0 && i <= h && At(s, p, h)
    requires forall j: nat :: i <= j < h ==> !At(s, p, j)
    ensures Find(s, p, i) == h
  {
  }

  /** An occurrence at `h` with none after it is what `rfind` reports. */
  lemma RFindIs(s: string, p: string, h: nat)
    requires At(s, p, h)
    requires forall j: nat :: h < j ==> !At(s, p, j)
    ensures RFind(s, p) == h
  {
  }

  /** Python's `sep.join(parts)`. */
  function Join(parts: seq<string>, sep: string): string {
    if |parts| == 0 then ""
    else if |parts| == 1 then parts[0]
    else parts[0] + sep + Join(parts[1..], sep)
  }

  /** Python's `s.split(sep)` for a non-empty separator: scans left to right,
      cutting at each non-overlapping occurrence. */
  function Split(s: string, sep: string): (r: seq<string>)
    requires |sep| > 0
    ensures |r| >= 1
    decreases |s|
  {
    var k := Find(s, sep, 0);
    if k < 0 then [s] else [s[..k]] + Split(s[k + |sep|..], sep)
  }

  /** `sep.join(s.split(sep)) == s`: splitting loses nothing. */
  lemma {:induction false} SplitJoin(s: string, sep: string)
    requires |sep| > 0
    ensures Join(Split(s, sep), sep) == s
    decreases |s|
  {
    var k := Find(s, sep, 0);
    if k >= 0 {
      var rest := s[k + |sep|..];
      var parts := Split(s, sep);
      assert parts == [s[..k]] + Split(rest, sep);
      assert parts[1..] == Split(rest, sep);
      SplitJoin(rest, sep);
      assert Join(parts, sep) == s[..k] + sep + rest;
      assert s == s[..k] + s[k..k + |sep|] + rest;
    }
  }

  /** No piece of a split contains the separator. */
  lemma {:induction false} SplitPiecesFree(s: string, sep: string)
    requires |sep| > 0
    ensures forall k :: 0 <= k < |Split(s, sep)| ==> !Occurs(Split(s, sep)[k], sep)
    decreases |s|
  {
    var k := Find(s, sep, 0);
    if k < 0 {
      NoOccurrence(s, sep);
    } else {
      FirstOccurrencePrefix(s, sep, k);
      SplitPiecesFree(s[k + |sep|..], sep);
    }
  }

  lemma NoOccurrence(s: string, p: string)
    requires |p| > 0 && Find(s, p, 0) == -1
    ensures !Occurs(s, p)
  {
  }

  /** The text before the first occurrence of `p` does not contain `p`. */
  lemma FirstOccurrencePrefix(s: string, p: string, k: nat)
    requires |p| > 0 && Find(s, p, 0) == k
    ensures !Occurs(s[..k], p)
  {
    forall j: nat | At(s[..k], p, j)
      ensures false
    {
      assert s[..k][j..j + |p|] == s[j..j + |p|];
      assert At(s, p, j);
    }
  }

  /** A string without the separator splits into itself alone. */
  lemma SplitNoSep(s: string, sep: string)
    requires |sep| > 0 && !Occurs(s, sep)
    ensures Split(s, sep) == [s]
  {
  }

  /** A string without the separator character splits into itself alone. */
  lemma SplitNoChar(s: string, c: char)
    requires forall i :: 0 <= i < |s| ==> s[i] != c
    ensures Split(s, [c]) == [s]
  {
    forall j: nat
      ensures !At(s, [c], j)
    {
      AtChar(s, c, j);
    }
    SplitNoSep(s, [c]);
  }

  lemma AtChar(s: string, c: char, j: nat)
    ensures At(s, [c], j) <==> j < |s| && s[j] == c
  {
    if j < |s| && s[j] == c {
      assert s[j..j + 1] == [c];
    }
  }

  /** One step of `split`: the text before the first occurrence, then the split of the rest. */
  lemma SplitStep(s: string, sep: string, k: nat)
    requires |sep| > 0 && Find(s, sep, 0) == k
    ensures Split(s, sep) == [s[..k]] + Split(s[k + |sep|..], sep)
  {
  }

  /** The first occurrence of `c` in `a + [c] + b` is the first one in `a`, or the added one. */
  lemma FindCharCat(a: string, c: char, b: string)
    ensures var k := Find(a, [c], 0);
      Find(a + [c] + b, [c], 0) == if k < 0 then |a| else k
  {
    var s := a + [c] + b;
    var k := Find(a, [c], 0);
    var m := if k < 0 then |a| else k;
    forall j: nat | j < m
      ensures !At(s, [c], j)
    {
      AtChar(s, c, j);
      AtChar(a, c, j);
    }
    AtChar(s, c, m);
    AtChar(a, c, m);
  }

  /** Cutting at a single-character separator distributes over concatenation. */
  lemma {:induction false} SplitCat(a: string, c: char, b: string)
    ensures Split(a + [c] + b, [c]) == Split(a, [c]) + Split(b, [c])
    decreases |a|
  {
    var k := Find(a, [c], 0);
    FindCharCat(a, c, b);
    if k < 0 {
      SplitCatFirst(a, c, b);
    } else {
      var a' := a[k + 1..];
      SplitCatLater(a, c, b, k);
      SplitCat(a', c, b);
      PrependPiece(Split(a + [c] + b, [c]), Split(a, [c]), Split(a' + [c] + b, [c]),
        Split(a', [c]), Split(b, [c]), a[..k]);
    }
  }

  /** Proof step: putting back the first piece on both sides of a split equation. */
  lemma PrependPiece(whole: seq<string>, left: seq<string>, tail: seq<string>,
                     leftTail: seq<string>, right: seq<string>, piece: string)
    requires whole == [piece] + tail && left == [piece] + leftTail && tail == leftTail + right
    ensures whole == left + right
  {
  }

  lemma SplitCatFirst(a: string, c: char, b: string)
    requires Find(a, [c], 0) < 0 && Find(a + [c] + b, [c], 0) == |a|
    ensures Split(a + [c] + b, [c]) == Split(a, [c]) + Split(b, [c])
  {
    var s := a + [c] + b;
    SplitStep(s, [c], |a|);
    assert s[..|a|] == a;
    assert s[|a| + 1..] == b;
  }

  lemma SplitCatLater(a: string, c: char, b: string, k: nat)
    requires Find(a, [c], 0) == k && Find(a + [c] + b, [c], 0) == k
    ensures Split(a + [c] + b, [c]) == [a[..k]] + Split(a[k + 1..] + [c] + b, [c])
    ensures Split(a, [c]) == [a[..k]] + Split(a[k + 1..], [c])
  {
    var s := a + [c] + b;
    SplitStep(s, [c], k);
    SplitStep(a, [c], k);
    assert s[..k] == a[..k];
    assert s[k + 1..] == a[k + 1..] + [c] + b;
  }

  /** Python's `s.replace(pat, rep)`: every non-overlapping occurrence, left to right. */
  function Replace(s: string, pat: string, rep: string): string
    requires |pat| > 0
  {
    Join(Split(s, pat), rep)
  }

  /** Python's `sub in s` (for a non-empty `sub`). */
  function Contains(s: string, sub: string): (b: bool)
    requires |sub| > 0
    ensures b <==> Occurs(s, sub)
  {
    Find(s, sub, 0) >= 0
  }

  /** The last element of a `split` result, `s.split(sep)[-1]`. */
  function LastPiece(s: string, sep: string): (r: string)
    requires |sep| > 0
  {
    var parts := Split(s, sep);
    parts[|parts| - 1]
  }

  /** The first character of `sep` occurs nowhere else in it, so two occurrences of
      `sep` never overlap. */
  predicate UniqueHead(sep: string) {
    |sep| > 0 && forall d :: 0 < d < |sep| ==> sep[d] != sep[0]
  }

  lemma AtShift(s: string, p: string, off: nat, j: nat)
    requires off <= |s|
    ensures At(s[off..], p, j) <==> At(s, p, off + j)
  {
    if off + j + |p| <= |s| {
      assert s[off..][j..j + |p|] == s[off + j..off + j + |p|];
    }
  }

  /** Occurrences of a separator with a unique first character do not overlap. */
  lemma NoOverlap(s: string, sep: string, k: nat, j: nat)
    requires UniqueHead(sep) && At(s, sep, k) && k < j < k + |sep|
    ensures !At(s, sep, j)
  {
    assert s[j] == s[k..k + |sep|][j - k] == sep[j - k];
    Mismatch(s, sep, j, j);
  }

  /** The window of `s` at `j` differs from `p` when one of its characters does. */
  lemma Mismatch(s: string, p: string, j: nat, k: nat)
    requires j <= k < j + |p| && k < |s| && s[k] != p[k - j]
    ensures !At(s, p, j)
  {
    if j + |p| <= |s| {
      assert s[j..j + |p|][k - j] == s[k];
    }
  }

  /** `s.split(sep)[-1]` is the text after the last occurrence of `sep` (or all of `s`
      when there is none), for separators whose occurrences cannot overlap. */
  lemma {:induction false} LastPieceAfterLast(s: string, sep: string)
    requires UniqueHead(sep)
    ensures var k := RFind(s, sep);
      LastPiece(s, sep) == if k < 0 then s else s[k + |sep|..]
    decreases |s|
  {
    var k0 := Find(s, sep, 0);
    if k0 >= 0 {
      var rest := s[k0 + |sep|..];
      LastPieceStep(s, sep, k0);
      LastPieceAfterLast(rest, sep);
      if RFind(rest, sep) < 0 {
        RFindNoneAfter(s, sep, k0);
      } else {
        RFindLaterAfter(s, sep, k0);
      }
    }
  }

  lemma LastPieceStep(s: string, sep: string, k0: nat)
    requires |sep| > 0 && Find(s, sep, 0) == k0
    ensures LastPiece(s, sep) == LastPiece(s[k0 + |sep|..], sep)
  {
    SplitStep(s, sep, k0);
    LastOfCons(Split(s, sep), s[..k0], Split(s[k0 + |sep|..], sep));
  }

  /** Proof step: a first element in front of a non-empty sequence does not change its
      last element. */
  lemma LastOfCons(xs: seq<string>, x: string, ys: seq<string>)
    requires xs == [x] + ys && |ys| > 0
    ensures xs[|xs| - 1] == ys[|ys| - 1]
  {
  }

  /** When nothing follows the first occurrence, it is also the last. */
  lemma RFindNoneAfter(s: string, sep: string, k0: nat)
    requires UniqueHead(sep) && At(s, sep, k0) && RFind(s[k0 + |sep|..], sep) < 0
    ensures RFind(s, sep) == k0
  {
    var off := k0 + |sep|;
    forall j: nat | k0 < j
      ensures !At(s, sep, j)
    {
      if j < off {
        NoOverlap(s, sep, k0, j);
      } else {
        AtShift(s, sep, off, j - off);
      }
    }
    RFindIs(s, sep, k0);
  }

  /** Otherwise the last occurrence lies in the rest. */
  lemma RFindLaterAfter(s: string, sep: string, k0: nat)
    requires |sep| > 0 && k0 + |sep| <= |s| && RFind(s[k0 + |sep|..], sep) >= 0
    ensures var kr := RFind(s[k0 + |sep|..], sep);
      && RFind(s, sep) == k0 + |sep| + kr
      && s[k0 + |sep|..][kr + |sep|..] == s[k0 + |sep| + kr + |sep|..]
  {
    var off := k0 + |sep|;
    var kr := RFind(s[off..], sep);
    AtShift(s, sep, off, kr);
    forall j: nat | off + kr < j
      ensures !At(s, sep, j)
    {
      if j >= off {
        AtShift(s, sep, off, j - off);
      }
    }
    RFindIs(s, sep, off + kr);
  }

  /** `sep` at the end of `a + sep + b` is the last cut when `b` cannot start another
      occurrence, so `split(sep)[-1]` gives back `b`. */
  lemma LastPieceOfTail(a: string, sep: string, b: string)
    requires UniqueHead(sep) && forall i :: 0 <= i < |b| ==> b[i] != sep[0]
    ensures LastPiece(a + sep + b, sep) == b
  {
    var s := a + sep + b;
    var p := |a|;
    assert s[p..p + |sep|] == sep;
    forall j: nat | p < j
      ensures !At(s, sep, j)
    {
      if j < p + |sep| {
        NoOverlap(s, sep, p, j);
      } else if j < |s| {
        assert s[j] == b[j - p - |sep|];
        Mismatch(s, sep, j, j);
      }
    }
    RFindIs(s, sep, p);
    LastPieceAfterLast(s, sep);
    assert s[p + |sep|..] == b;
  }

  /** Replacing a pattern that occurs once, at a known place. */
  lemma ReplaceOnce(a: string, pat: string, b: string, rep: string)
    requires |pat| > 0 && Find(a + pat + b, pat, 0) == |a| && !Occurs(b, pat)
    ensures Replace(a + pat + b, pat, rep) == a + rep + b
  {
    var s := a + pat + b;
    SplitOnce(s, pat, |a|);
    assert s[..|a|] == a;
    assert s[|a| + |pat|..] == b;
    JoinTwo(a, b, rep);
  }

  lemma SplitOnce(s: string, pat: string, k: nat)
    requires |pat| > 0 && Find(s, pat, 0) == k && !Occurs(s[k + |pat|..], pat)
    ensures Split(s, pat) == [s[..k], s[k + |pat|..]]
  {
    SplitStep(s, pat, k);
    SplitNoSep(s[k + |pat|..], pat);
  }

  lemma JoinTwo(a: string, b: string, sep: string)
    ensures Join([a, b], sep) == a + sep + b
  {
    assert [a, b][1..] == [b];
  }

  // ---------------------------------------------------------------------------
  // Slicing

  /** How Python resolves a slice bound against a length: negative bounds count
      from the end, and bounds are clamped to `0..len`. */
  function SliceIndex(n: int, len: nat): (k: nat)
    ensures k <= len
  {
    if n < 0 then (if n + len < 0 then 0 else n + len)
    else if n > len then len
    else n
  }

  /** `s[start:stop]` */
  function Slice(s: string, start: int, stop: int): string {
    var a, b := SliceIndex(start, |s|), SliceIndex(stop, |s|);
    if a >= b then [] else s[a..b]
  }

  /** `s[start:]` */
  function SliceFrom(s: string, start: int): string {
    s[SliceIndex(start, |s|)..]
  }

  /** `s[:stop]` */
  function SliceTo(s: string, stop: int): string {
    s[..SliceIndex(stop, |s|)]
  }

  // ---------------------------------------------------------------------------
  // Whitespace and strip

  /** `str.isspace()` for one character: the characters Python treats as whitespace. */
  predicate IsSpace(c: char) {
    || c == ' ' || ('\t' <= c <= '\r') || ('\U{1c}' <= c <= '\U{1f}')
    || c == '\U{85}' || c == '\U{a0}' || c == '\U{1680}' || ('\U{2000}' <= c <= '\U{200a}')
    || c == '\U{2028}' || c == '\U{2029}' || c == '\U{202f}' || c == '\U{205f}' || c == '\U{3000}'
  }

  predicate AllSpace(s: string) {
    forall i :: 0 <= i < |s| ==> IsSpace(s[i])
  }

  /** The index of the first non-whitespace character at or after `i`, or `|s|`. */
  function SkipSpaces(s: string, i: nat): (b: nat)
    requires i <= |s|
    ensures i <= b <= |s|
    ensures forall k :: i <= k < b ==> IsSpace(s[k])
    ensures b < |s| ==> !IsSpace(s[b])
    decreases |s| - i
  {
    if i < |s| && IsSpace(s[i]) then SkipSpaces(s, i + 1) else i
  }

  /** Where `s[i..j]` ends once its trailing whitespace is dropped. */
  function BackSpaces(s: string, i: nat, j: nat): (e: nat)
    requires i <= j <= |s|
    ensures i <= e <= j
    ensures forall k :: e <= k < j ==> IsSpace(s[k])
    ensures i < e ==> !IsSpace(s[e - 1])
    decreases j
  {
    if i < j && IsSpace(s[j - 1]) then BackSpaces(s, i, j - 1) else j
  }

  /** Python's `s.strip()` with no argument: drops the leading, then the trailing whitespace. */
  function Strip(s: string): (r: string)
  {
    var b := SkipSpaces(s, 0);
    s[b..BackSpaces(s, b, |s|)]
  }

  /** `strip` removes exactly the surrounding whitespace: what is left is an infix of `s`
      with only whitespace around it, and it neither starts nor ends with whitespace. */
  lemma StripShape(s: string)
    ensures var r := Strip(s);
      && (exists i, j :: 0 <= i <= j <= |s| && r == s[i..j] && AllSpace(s[..i]) && AllSpace(s[j..]))
      && (r == [] || (!IsSpace(r[0]) && !IsSpace(r[|r| - 1])))
  {
    var i := SkipSpaces(s, 0);
    var j := BackSpaces(s, i, |s|);
    var r := Strip(s);
    assert AllSpace(s[..i]) by {
      forall k | 0 <= k < i
        ensures IsSpace(s[..i][k])
      {
        assert s[..i][k] == s[k];
      }
    }
    assert AllSpace(s[j..]) by {
      forall k | 0 <= k < |s| - j
        ensures IsSpace(s[j..][k])
      {
        assert s[j..][k] == s[j + k];
      }
    }
    if r != [] {
      assert r[0] == s[i];
      assert r[|r| - 1] == s[j - 1];
    }
  }

  /** Stripping a string that neither starts nor ends with whitespace, followed by whitespace only. */
  lemma StripTrailingSpaces(a: string, ws: string)
    requires |a| > 0 && !IsSpace(a[0]) && !IsSpace(a[|a| - 1])
    requires AllSpace(ws)
    ensures Strip(a + ws) == a
  {
    var s := a + ws;
    assert SkipSpaces(s, 0) == 0 by { assert s[0] == a[0]; }
    assert s[|a| - 1] == a[|a| - 1];
    forall k | |a| <= k < |s|
      ensures IsSpace(s[k])
    {
      assert s[k] == ws[k - |a|];
    }
    BackSpacesOver(s, 0, |a|, |s|);
    assert s[..|a|] == a;
  }

  /** Dropping trailing whitespace stops at the last non-whitespace character. */
  lemma {:induction false} BackSpacesOver(s: string, i: nat, m: nat, j: nat)
    requires i < m <= j <= |s| && !IsSpace(s[m - 1])
    requires forall k :: m <= k < j ==> IsSpace(s[k])
    ensures BackSpaces(s, i, j) == m
    decreases j
  {
    if m < j {
      BackSpacesOver(s, i, m, j - 1);
    }
  }

  /** A string with no whitespace at either end is left alone by `strip`. */
  lemma StripNoSpaces(a: string)
    requires |a| > 0 && !IsSpace(a[0]) && !IsSpace(a[|a| - 1])
    ensures Strip(a) == a
  {
    assert a + [] == a;
    StripTrailingSpaces(a, []);
  }

  // ---------------------------------------------------------------------------
  // Decimal digits, int() and str()

  predicate IsDigit(c: char) {
    '0' <= c <= '9'
  }

  predicate AllDigits(s: string) {
    forall i :: 0 <= i < |s| ==> IsDigit(s[i])
  }

  /** A run of digits holds no character other than a digit. */
  lemma DigitsExclude(u: string, c: char)
    requires AllDigits(u) && !IsDigit(c)
    ensures forall i :: 0 <= i < |u| ==> u[i] != c
  {
    forall i | 0 <= i < |u|
      ensures u[i] != c
    {
      assert IsDigit(u[i]);
    }
  }

  /** A digit run is one piece when split at a non-digit. */
  lemma DigitsNoChar(u: string, c: char)
    requires AllDigits(u) && !IsDigit(c)
    ensures Split(u, [c]) == [u]
  {
    DigitsExclude(u, c);
    SplitNoChar(u, c);
  }

  function DigitValue(c: char): nat
    requires IsDigit(c)
  {
    (c as int - '0' as int) as nat
  }

  function DigitChar(d: nat): (c: char)
    requires d < 10
    ensures IsDigit(c) && DigitValue(c) == d
  {
    ('0' as int + d) as char
  }

  /** The value of a string of decimal digits, most significant first. */
  function DigitsValue(s: string): nat
    requires AllDigits(s)
  {
    if s == [] then 0 else 10 * DigitsValue(s[..|s| - 1]) + DigitValue(s[|s| - 1])
  }

  function Pow10(n: nat): (r: nat)
    ensures r >= 1
  {
    if n == 0 then 1 else 10 * Pow10(n - 1)
  }

  lemma {:induction false} DigitsValueBound(s: string)
    requires AllDigits(s)
    ensures DigitsValue(s) < Pow10(|s|)
  {
    if s != [] {
      DigitsValueBound(s[..|s| - 1]);
    }
  }

  /** `n` written with exactly `w` decimal digits, zero-padded (as `%0wd`). */
  function Pad(n: nat, w: nat): (r: string)
    ensures |r| == w && AllDigits(r)
  {
    if w == 0 then [] else Pad(n / 10, w - 1) + [DigitChar(n % 10)]
  }

  lemma {:induction false} PadValue(n: nat, w: nat)
    requires n < Pow10(w)
    ensures DigitsValue(Pad(n, w)) == n
  {
    if w > 0 {
      var r := Pad(n, w);
      assert r[..|r| - 1] == Pad(n / 10, w - 1);
      PadValue(n / 10, w - 1);
    }
  }

  /** Python's `str(n)` for a natural number: no leading zeros. */
  function NatToString(n: nat): (r: string)
    ensures |r| > 0 && AllDigits(r)
    ensures |r| > 1 ==> r[0] != '0'
  {
    if n < 10 then [DigitChar(n)] else NatToString(n / 10) + [DigitChar(n % 10)]
  }

  lemma {:induction false} NatToStringValue(n: nat)
    ensures DigitsValue(NatToString(n)) == n
  {
    if n >= 10 {
      var r := NatToString(n);
      assert r[..|r| - 1] == NatToString(n / 10);
      NatToStringValue(n / 10);
    }
  }

  /** Python's `str(i)` for an integer. */
  function IntToString(i: int): string {
    if i < 0 then "-" + NatToString(-i) else NatToString(i)
  }

  predicate DigitsOrUnderscores(u: string) {
    forall i :: 0 <= i < |u| ==> IsDigit(u[i]) || u[i] == '_'
  }

  /** The digit grammar `int()` accepts: digits, single underscores only between two digits. */
  predicate IsDigitGroup(u: string) {
    && |u| > 0
    && IsDigit(u[0])
    && IsDigit(u[|u| - 1])
    && DigitsOrUnderscores(u)
    && forall i :: 0 <= i < |u| - 1 && u[i] == '_' ==> IsDigit(u[i + 1])
  }

  function RemoveUnderscores(u: string): (r: string)
    ensures DigitsOrUnderscores(u) ==> AllDigits(r)
  {
    if u == [] then []
    else if u[0] == '_' then RemoveUnderscores(u[1..])
    else [u[0]] + RemoveUnderscores(u[1..])
  }

  function UnsignedValue(u: string): Option<nat> {
    if IsDigitGroup(u) then
      Some(DigitsValue(RemoveUnderscores(u)))
    else None
  }

  /** Python's `int(s)` on a string, base 10: surrounding whitespace, an optional sign,
      then ASCII digits optionally grouped by single underscores; anything else raises
      ValueError, modelled as None. */
  function PyInt(s: string): Option<int> {
    SignedValue(Strip(s))
  }

  /** An optional sign followed by a digit group. */
  function SignedValue(t: string): Option<int> {
    if |t| > 0 && (t[0] == '+' || t[0] == '-') then
      match UnsignedValue(t[1..])
      case None => None
      case Some(v) =>
        var n: int := v;
        Some(if t[0] == '-' then -n else n)
    else
      match UnsignedValue(t)
      case None => None
      case Some(v) => Some(v)
  }

  /** A plain run of decimal digits parses to its value. */
  lemma PyIntDigits(u: string)
    requires |u| > 0 && AllDigits(u)
    ensures PyInt(u) == Some(DigitsValue(u))
  {
    StripNoSpaces(u);
    DigitsAreGroup(u);
    assert SignedValue(u) == Some(DigitsValue(u)) by { assert !(u[0] == '+' || u[0] == '-'); }
  }

  /** A plain run of digits is a digit group and reads as its value. */
  lemma DigitsAreGroup(u: string)
    requires |u| > 0 && AllDigits(u)
    ensures IsDigitGroup(u)
    ensures UnsignedValue(u) == Some(DigitsValue(u))
  {
    NoUnderscores(u);
  }

  lemma {:induction false} NoUnderscores(u: string)
    requires AllDigits(u)
    ensures RemoveUnderscores(u) == u
  {
    if u != [] {
      assert u[0] != '_';
      NoUnderscores(u[1..]);
    }
  }

  lemma StripSigned(d: string)
    requires |d| > 0 && AllDigits(d)
    ensures Strip("-" + d) == "-" + d
  {
    var s := "-" + d;
    assert s[|s| - 1] == d[|d| - 1];
    StripNoSpaces(s);
  }

  lemma NegativeSign(u: string, v: nat)
    requires UnsignedValue(u) == Some(v)
    ensures SignedValue("-" + u) == Some(-(v as int))
  {
    var s := "-" + u;
    assert s[0] == '-' && s[1..] == u;
  }

  /** A minus sign followed by a run of digits parses to the negated value. */
  lemma NegativeParse(t: string, d: string, n: nat)
    requires |d| > 0 && AllDigits(d) && t == "-" + d && UnsignedValue(d) == Some(n)
    ensures PyInt(t) == Some(-(n as int))
  {
    StripSigned(d);
    NegativeSign(d, n);
  }

  /** `int(str(n)) == n`: Python's integer printing and parsing are inverse. */
  lemma IntRoundTrip(i: int)
    ensures PyInt(IntToString(i)) == Some(i)
  {
    if i < 0 {
      var n: nat := -i;
      NatUnsigned(n);
      NegativeParse(IntToString(i), NatToString(n), n);
    } else {
      NaturalRoundTrip(i);
      assert IntToString(i) == NatToString(i);
    }
  }

  lemma NatUnsigned(n: nat)
    ensures UnsignedValue(NatToString(n)) == Some(n)
  {
    NatToStringValue(n);
    DigitsAreGroup(NatToString(n));
  }

  lemma NaturalRoundTrip(n: nat)
    ensures PyInt(NatToString(n)) == Some(n)
  {
    NatToStringValue(n);
    PyIntDigits(NatToString(n));
  }
}
