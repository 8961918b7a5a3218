// `create_pem` (scraper.py and scanner.py carry the same copy): the certificate and
// key material read from the secret store is re-written with its base64 body cut into
// lines of 64 characters, as in section 2 of RFC 7468. The header is everything up to
// the end of the first "-----" found from index 1 on, the footer everything from the
// last "-----END" on, and the body what lies between.

module Pem {
  import opened PyText

  const Dashes := "-----"
  const EndMarker := "-----END"
  const LineWidth := 64

  /** `pem_content.find('-----', 1) + 5` */
  function HeaderEnd(pem: string): int {
    Find(pem, Dashes, 1) + 5
  }

  /** `pem_content[:pem_content.find('-----', 1) + 5]` */
  function Header(pem: string): (r: string)
    ensures |r| <= |pem| && r == pem[..|r|]
    ensures Find(pem, Dashes, 1) >= 0 ==> |r| >= 6 && r[|r| - 5..] == Dashes
  {
    SliceTo(pem, HeaderEnd(pem))
  }

  /** `pem_content[pem_content.find('-----', 1) + 5 : pem_content.rfind('-----END')]` */
  function Body(pem: string): (r: string)
    ensures 0 <= HeaderEnd(pem) <= RFind(pem, EndMarker) ==> Header(pem) + r + Footer(pem) == pem
  {
    var r := Slice(pem, HeaderEnd(pem), RFind(pem, EndMarker));
    if 0 <= HeaderEnd(pem) <= RFind(pem, EndMarker) then
      assert pem[..HeaderEnd(pem)] + r + pem[RFind(pem, EndMarker)..] == pem;
      r
    else r
  }

  /** `pem_content[pem_content.rfind('-----END'):]` */
  function Footer(pem: string): (r: string)
    ensures |r| <= |pem| && r == pem[|pem| - |r|..]
    ensures RFind(pem, EndMarker) >= 0 ==> |r| >= |EndMarker| && r[..|EndMarker|] == EndMarker
  {
    SliceFrom(pem, RFind(pem, EndMarker))
  }

  /** The body cut into lines: full lines of 64 characters, then the shorter rest if any. */
  function Chunks(v: string): seq<string>
    decreases |v|
  {
    if |v| == 0 then []
    else if |v| <= LineWidth then [v]
    else [v[..LineWidth]] + Chunks(v[LineWidth..])
  }

  /** Each line followed by a newline. */
  function Lines(ls: seq<string>): string {
    if ls == [] then "" else ls[0] + "\n" + Lines(ls[1..])
  }

  function Concat(ls: seq<string>): string {
    if ls == [] then "" else ls[0] + Concat(ls[1..])
  }

  /** The text `create_pem` writes to the file. It adds one newline after the header
      and one after each line of the body, and nothing else. */
  function PemText(pem: string): (r: string)
    ensures |r| == |Header(pem)| + |Body(pem)| + |Footer(pem)| + 1 + |Chunks(Body(pem))|
  {
    ChunksConcat(Body(pem));
    LinesLength(Chunks(Body(pem)));
    Header(pem) + "\n" + Lines(Chunks(Body(pem))) + Footer(pem)
  }

  /** The loop of `create_pem` over the body: one 64-character slice at a time, then
      the shorter remainder when the length is not a multiple of 64, each followed by
      a newline. */
  method WrapBody(value: string) returns (text: string)
    ensures text == Lines(Chunks(value))
  {
    text := "";
    var full := |value| / LineWidth;
    for i := 0 to full
      invariant text == Lines(Chunks(value[..LineWidth * i]))
    {
      var line := value[LineWidth * i..LineWidth * (i + 1)];
      ChunksAppendLine(value[..LineWidth * i], line);
      assert value[..LineWidth * (i + 1)] == value[..LineWidth * i] + line;
      text := text + line + "\n";
    }
    var done := value[..LineWidth * full];
    var rest := value[LineWidth * full..];
    assert value == done + rest;
    assert |done| % LineWidth == 0 && |rest| == |value| % LineWidth;
    if |rest| != 0 {
      ChunksAppendLast(done, rest);
      text := text + rest + "\n";
    } else {
      assert value == done;
    }
  }

  /** `create_pem`: the header line, the wrapped body, then the footer. The file and
      its permission bits are not modelled; the method returns the text it writes. */
  method CreatePem(pemContent: string) returns (out: string)
    ensures out == PemText(pemContent)
  {
    var body := WrapBody(Body(pemContent));
    out := Header(pemContent) + "\n" + body + Footer(pemContent);
  }

  // ---------------------------------------------------------------------------
  // The shape of the wrapped body

  lemma LinesAppend(ls: seq<string>, l: string)
    ensures Lines(ls + [l]) == Lines(ls) + l + "\n"
  {
    if ls != [] {
      assert (ls + [l])[1..] == ls[1..] + [l];
      LinesAppend(ls[1..], l);
    }
  }

  /** Appending a full line of 64 characters to a body whose length is a multiple of 64. */
  lemma {:induction false} ChunksAppendLine(a: string, line: string)
    requires |a| % LineWidth == 0 && |line| == LineWidth
    ensures Chunks(a + line) == Chunks(a) + [line]
    ensures Lines(Chunks(a + line)) == Lines(Chunks(a)) + line + "\n"
    decreases |a|
  {
    if |a| == 0 {
      assert a + line == line;
    } else {
      assert (a + line)[..LineWidth] == a[..LineWidth];
      assert (a + line)[LineWidth..] == a[LineWidth..] + line;
      ChunksAppendLine(a[LineWidth..], line);
    }
    LinesAppend(Chunks(a), line);
  }

  /** Appending the shorter last line. */
  lemma {:induction false} ChunksAppendLast(a: string, rest: string)
    requires |a| % LineWidth == 0 && 0 < |rest| < LineWidth
    ensures Chunks(a + rest) == Chunks(a) + [rest]
    ensures Lines(Chunks(a + rest)) == Lines(Chunks(a)) + rest + "\n"
    decreases |a|
  {
    if |a| == 0 {
      assert a + rest == rest;
    } else {
      assert (a + rest)[..LineWidth] == a[..LineWidth];
      assert (a + rest)[LineWidth..] == a[LineWidth..] + rest;
      ChunksAppendLast(a[LineWidth..], rest);
    }
    LinesAppend(Chunks(a), rest);
  }

  /** Each line gains exactly one newline. */
  lemma {:induction false} LinesLength(ls: seq<string>)
    ensures |Lines(ls)| == |Concat(ls)| + |ls|
  {
    if ls != [] {
      LinesLength(ls[1..]);
    }
  }

  /** Concatenating the lines without their newlines gives back the body. */
  lemma {:induction false} ChunksConcat(v: string)
    ensures Concat(Chunks(v)) == v
    decreases |v|
  {
    if |v| > LineWidth {
      ChunksConcat(v[LineWidth..]);
      assert v == v[..LineWidth] + v[LineWidth..];
    } else if |v| > 0 {
      assert Concat([v]) == v + "";
    }
  }

  /** Every line but the last has exactly 64 characters; the last has 1 to 64, and
      fewer than 64 exactly when the body length is not a multiple of 64. There are
      ceil(|v| / 64) lines. */
  lemma {:induction false} ChunksShape(v: string)
    ensures |Chunks(v)| == (|v| + LineWidth - 1) / LineWidth
    ensures forall k :: 0 <= k < |Chunks(v)| - 1 ==> |Chunks(v)[k]| == LineWidth
    ensures |v| > 0 ==> var last := Chunks(v)[|Chunks(v)| - 1];
      && 0 < |last| <= LineWidth
      && (|v| % LineWidth == 0 <==> |last| == LineWidth)
      && (|v| % LineWidth != 0 ==> |last| == |v| % LineWidth)
    decreases |v|
  {
    if |v| > LineWidth {
      ChunksShape(v[LineWidth..]);
    }
  }

  /** The written text starts with the header and a newline, ends with the footer, and
      in between holds the wrapped body. */
  lemma PemTextShape(pem: string)
    ensures var t := PemText(pem);
      && t[..|Header(pem)| + 1] == Header(pem) + "\n"
      && t[|t| - |Footer(pem)|..] == Footer(pem)
      && t[|Header(pem)| + 1..|t| - |Footer(pem)|] == Lines(Chunks(Body(pem)))
  {
  }

  // ---------------------------------------------------------------------------
  // A well-formed PEM block round-trips

  predicate NoDash(s: string) {
    forall i :: 0 <= i < |s| ==> s[i] != '-'
  }

  const Begin := "-----BEGIN "
  const End := "-----END "

  /** "-----BEGIN K-----" */
  function HeadLine(kind: string): string {
    Begin + kind + Dashes
  }

  /** "-----END K-----" followed by trailing text. */
  function FootLine(kind: string, trail: string): string {
    End + kind + Dashes + trail
  }

  /** A block "-----BEGIN K-----" + body + "-----END K-----" + trailing whitespace. */
  function Block(kind: string, body: string, trail: string): string {
    HeadLine(kind) + body + FootLine(kind, trail)
  }

  /** Where the three lines of a block sit. */
  lemma BlockLayout(kind: string, body: string, trail: string)
    ensures var s := Block(kind, body, trail);
      var h := 16 + |kind|;
      var f := h + |body|;
      && |s| == f + |FootLine(kind, trail)|
      && s[..h] == HeadLine(kind) && s[h..f] == body && s[f..] == FootLine(kind, trail)
  {
    var s := Block(kind, body, trail);
    var h := 16 + |kind|;
    var f := h + |body|;
    HeadLineLayout(kind);
    assert s == HeadLine(kind) + (body + FootLine(kind, trail));
    assert s[h..] == body + FootLine(kind, trail);
    assert s[f..] == s[h..][|body|..];
    assert s[h..f] == s[h..][..|body|];
  }

  lemma HeadLineLayout(kind: string)
    ensures var l := HeadLine(kind);
      && |l| == 16 + |kind| && l[..11] == Begin && l[11..11 + |kind|] == kind && l[11 + |kind|..] == Dashes
  {
    var l := HeadLine(kind);
    assert l == Begin + (kind + Dashes);
  }

  lemma FootLineLayout(kind: string, trail: string)
    ensures var l := FootLine(kind, trail);
      var g := 9 + |kind|;
      && |l| == g + 5 + |trail| && l[..9] == End && l[9..g] == kind && l[g..g + 5] == Dashes
      && l[g + 5..] == trail
  {
    var l := FootLine(kind, trail);
    var g := 9 + |kind|;
    assert l == End + (kind + (Dashes + trail));
    assert l[9..] == kind + (Dashes + trail);
    assert l[g..] == Dashes + trail;
    assert l[9..g] == l[9..][..|kind|];
    assert l[g..g + 5] == l[g..][..5];
  }

  lemma BlockHeaderEnd(kind: string, body: string, trail: string)
    requires NoDash(kind)
    ensures Find(Block(kind, body, trail), Dashes, 1) == 11 + |kind|
  {
    var s := Block(kind, body, trail);
    var h := 11 + |kind|;
    BlockLayout(kind, body, trail);
    HeadLineLayout(kind);
    var l := s[..h + 5];
    assert l[5] == l[..11][5] == 'B';
    assert l[10] == l[..11][10] == ' ';
    forall j: nat | 1 <= j < h
      ensures !At(s, Dashes, j)
    {
      if j <= 5 {
        Mismatch(s, Dashes, j, 5);
      } else if j <= 10 {
        Mismatch(s, Dashes, j, 10);
      } else {
        assert s[j] == l[j] == l[11..h][j - 11] == kind[j - 11];
        Mismatch(s, Dashes, j, j);
      }
    }
    assert s[h..h + 5] == l[h..] == Dashes;
    FindIs(s, Dashes, 1, h);
  }

  lemma BlockFooterStart(kind: string, body: string, trail: string)
    requires NoDash(kind) && AllSpace(trail)
    ensures RFind(Block(kind, body, trail), EndMarker) == 16 + |kind| + |body|
  {
    var s := Block(kind, body, trail);
    var f := 16 + |kind| + |body|;
    var l := FootLine(kind, trail);
    BlockLayout(kind, body, trail);
    FootLineLayout(kind, trail);
    assert l[..8] == l[..9][..8];
    AtShift(s, EndMarker, f, 0);
    forall j: nat | f < j
      ensures !At(s, EndMarker, j)
    {
      FootLineNoMarker(kind, trail, j - f);
      AtShift(s, EndMarker, f, j - f);
    }
    RFindIs(s, EndMarker, f);
  }

  /** Past its first character, the END line holds no further "-----END". */
  lemma FootLineNoMarker(kind: string, trail: string, j: nat)
    requires NoDash(kind) && AllSpace(trail) && 0 < j
    ensures !At(FootLine(kind, trail), EndMarker, j)
  {
    var l := FootLine(kind, trail);
    var g := 9 + |kind|;
    FootLineLayout(kind, trail);
    assert l[5] == l[..9][5] == 'E';
    assert l[8] == l[..9][8] == ' ';
    if j + 8 > |l| {
    } else if j <= 5 {
      Mismatch(l, EndMarker, j, 5);
    } else if j <= 8 {
      Mismatch(l, EndMarker, j, 8);
    } else if j < g {
      assert l[j] == l[9..g][j - 9] == kind[j - 9];
      Mismatch(l, EndMarker, j, j);
    } else if j < g + 5 {
      assert l[g + 5] == l[g + 5..][0] == trail[0];
      assert IsSpace(trail[0]);
      Mismatch(l, EndMarker, j, g + 5);
    } else {
      assert l[j] == l[g + 5..][j - g - 5] == trail[j - g - 5];
      assert IsSpace(trail[j - g - 5]);
      Mismatch(l, EndMarker, j, j);
    }
  }

  /** A block whose body is on one line is written back with the same header line, the
      body wrapped at 64 columns, and the same footer. */
  lemma BlockRewrapped(kind: string, body: string, trail: string)
    requires NoDash(kind) && AllSpace(trail)
    ensures var s := Block(kind, body, trail);
      && Header(s) == HeadLine(kind)
      && Body(s) == body
      && Footer(s) == FootLine(kind, trail)
      && PemText(s) == HeadLine(kind) + "\n" + Lines(Chunks(body)) + FootLine(kind, trail)
  {
    var s := Block(kind, body, trail);
    BlockHeaderEnd(kind, body, trail);
    BlockFooterStart(kind, body, trail);
    BlockLayout(kind, body, trail);
  }

  /** Without any "-----END", `rfind` gives -1 and Python's negative slice bounds make
      the body stop one character short and the footer the last character alone. */
  lemma MissingEndMarker(pem: string)
    requires |pem| > 0 && RFind(pem, EndMarker) == -1
    ensures Footer(pem) == [pem[|pem| - 1]]
    ensures Body(pem) == Slice(pem, HeaderEnd(pem), |pem| - 1)
  {
  }
}
