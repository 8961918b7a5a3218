// Three small conversions the scraper applies to text read from a notice page
// (scraper.py): the framework-agreement flag, the bid-bond percentage of an item, and
// the address of an item's detail page.

module NoticeFields {
  import opened Optional
  import opened PyText

  // ---------------------------------------------------------------------------
  // Framework agreement

  const No := "nie"

  /** `False if "nie" in text else True`: the flag is False exactly when the text
      contains "nie" (lower case) anywhere. */
  function IsFrameworkAgreement(text: string): (b: bool)
    ensures b <==> !Occurs(text, No)
  {
    !Contains(text, No)
  }

  /** Any text around "nie" still gives False. */
  lemma NieAnywhere(a: string, b: string)
    ensures !IsFrameworkAgreement(a + No + b)
  {
    var s := a + No + b;
    assert s[|a|..|a| + 3] == No;
    assert At(s, No, |a|);
  }

  /** The empty text gives True. */
  lemma EmptyIsFramework()
    ensures IsFrameworkAgreement("")
  {
    assert forall j: nat :: !At("", No, j);
  }

  /** The test is case-sensitive: a capitalised "Nie" gives True. */
  lemma CapitalisedNie()
    ensures IsFrameworkAgreement("Nie")
  {
    forall j: nat
      ensures !At("Nie", No, j)
    {
      if j == 0 {
        Mismatch("Nie", No, 0, 0);
      }
    }
  }

  // ---------------------------------------------------------------------------
  // Bid bond percentage

  /** A plain decimal literal: optional sign, digits, optional point and digits. */
  datatype Decimal = Decimal(negative: bool, whole: string, frac: string)

  /** The plain decimal literals `float()` accepts (after its own strip). */
  function ParseDecimal(t: string): (r: Option<Decimal>)
    ensures r.Some? ==> AllDigits(r.value.whole) && AllDigits(r.value.frac)
    ensures r.Some? ==> |r.value.whole| + |r.value.frac| > 0
    ensures r.Some? ==> |t| > 0 && (r.value.negative <==> t[0] == '-')
  {
    var signed := |t| > 0 && (t[0] == '-' || t[0] == '+');
    var body := if signed then t[1..] else t;
    var parts := Split(body, ".");
    if |parts| > 2 then None
    else
      var whole := parts[0];
      var frac := if |parts| == 2 then parts[1] else "";
      if AllDigits(whole) && AllDigits(frac) && |whole| + |frac| > 0 then
        Some(Decimal(signed && t[0] == '-', whole, frac))
      else None
  }

  /** The exact value of a decimal literal. */
  function DecimalValue(d: Decimal): real
    requires AllDigits(d.whole) && AllDigits(d.frac)
  {
    var magnitude := DigitsValue(d.whole) as real + DigitsValue(d.frac) as real / Pow10(|d.frac|) as real;
    if d.negative then -magnitude else magnitude
  }

  /** `int(float(...))` of a decimal literal: its whole part with its sign. */
  function Truncate(d: Decimal): (n: int)
    requires AllDigits(d.whole) && AllDigits(d.frac)
  {
    if d.negative then -(DigitsValue(d.whole) as int) else DigitsValue(d.whole)
  }

  /** The empty text gives 0; otherwise every "," becomes "." and the decimal is cut to
      an integer. None stands for the ValueError `float()` raises, which the scraper
      does not catch. */
  function BidBondPercent(text: string): (r: Option<int>)
    ensures text == "" ==> r == Some(0)
  {
    if text == "" then Some(0)
    else match ParseDecimal(Strip(Replace(text, ",", ".")))
      case None => None
      case Some(d) => Some(Truncate(d))
  }

  /** Truncation is toward zero: the result is the integer nearest zero that is no
      farther from zero than the value. */
  lemma {:induction false} TruncateTowardZero(d: Decimal)
    requires AllDigits(d.whole) && AllDigits(d.frac)
    ensures var v, n := DecimalValue(d), Truncate(d);
      && (v >= 0.0 ==> n as real <= v < n as real + 1.0)
      && (v < 0.0 ==> n as real - 1.0 < v <= n as real)
  {
    DigitsValueBound(d.frac);
    FractionBelowOne(DigitsValue(d.frac), Pow10(|d.frac|));
  }

  /** Proof step: a fraction whose numerator is below its denominator lies in [0, 1). */
  lemma FractionBelowOne(x: nat, y: nat)
    requires x < y
    ensures 0.0 <= x as real / y as real < 1.0
  {
  }

  /** Whatever text the scraper accepts, the stored percentage is the truncation
      toward zero of the decimal it reads after turning commas into points. */
  lemma BidBondTruncates(text: string)
    requires text != "" && BidBondPercent(text).Some?
    ensures var d := ParseDecimal(Strip(Replace(text, ",", "."))).value;
      var v, n := DecimalValue(d), BidBondPercent(text).value;
      && (v >= 0.0 ==> n as real <= v < n as real + 1.0)
      && (v < 0.0 ==> n as real - 1.0 < v <= n as real)
  {
    TruncateTowardZero(ParseDecimal(Strip(Replace(text, ",", "."))).value);
  }

  /** Two digit runs around one separator split into the two runs. */
  lemma SplitDigitsAt(a: string, c: char, b: string)
    requires AllDigits(a) && AllDigits(b) && !IsDigit(c)
    ensures Split(a + [c] + b, [c]) == [a, b]
  {
    DigitsExclude(a, c);
    DigitsExclude(b, c);
    SplitNoChar(a, c);
    SplitNoChar(b, c);
    SplitCat(a, c, b);
  }

  /** `"a,b".replace(",", ".")` for digit runs a and b. */
  lemma CommaToPoint(a: string, b: string)
    requires AllDigits(a) && AllDigits(b)
    ensures Replace(a + "," + b, ",", ".") == a + "." + b
  {
    assert a + "," + b == a + [','] + b;
    SplitDigitsAt(a, ',', b);
    JoinTwo(a, b, ".");
  }

  /** "a.b" is already stripped and reads as the unsigned decimal a.b. */
  lemma DecimalPoint(a: string, b: string)
    requires |a| > 0 && AllDigits(a) && AllDigits(b)
    ensures Strip(a + "." + b) == a + "." + b
    ensures ParseDecimal(a + "." + b) == Some(Decimal(false, a, b))
  {
    var t := a + "." + b;
    assert t[0] == a[0];
    if |b| > 0 {
      assert t[|t| - 1] == b[|b| - 1];
    }
    StripNoSpaces(t);
    assert t == a + ['.'] + b;
    SplitDigitsAt(a, '.', b);
    assert IsDigit(t[0]);
    DecimalOfBody(t, t, [a, b]);
  }

  /** A literal with an optional sign reads back as its sign, whole part and fraction. */
  lemma SignedDecimal(sign: string, a: string, b: string)
    requires sign == "" || sign == "+" || sign == "-"
    requires |a| > 0 && AllDigits(a) && AllDigits(b)
    ensures ParseDecimal(sign + a + "." + b) == Some(Decimal(sign == "-", a, b))
  {
    var u := a + "." + b;
    PointParts(a, b);
    SignFacts(sign, u);
    SignRegrouped(sign, a, b);
    DecimalOfBody(sign + u, u, [a, b]);
  }

  /** Proof step: "a.b" starts with a digit and splits at "." into a and b. */
  lemma PointParts(a: string, b: string)
    requires |a| > 0 && AllDigits(a) && AllDigits(b)
    ensures IsDigit((a + "." + b)[0]) && Split(a + "." + b, ".") == [a, b]
  {
    assert a + "." + b == a + ['.'] + b;
    SplitDigitsAt(a, '.', b);
    assert (a + "." + b)[0] == a[0];
  }

  /** Proof step: regrouping the signed literal around its unsigned part. */
  lemma SignRegrouped(sign: string, a: string, b: string)
    ensures sign + a + "." + b == sign + (a + "." + b)
  {
  }

  /** A whole number with an optional sign reads back as its sign and digits. */
  lemma SignedWhole(sign: string, a: string)
    requires sign == "" || sign == "+" || sign == "-"
    requires |a| > 0 && AllDigits(a)
    ensures ParseDecimal(sign + a) == Some(Decimal(sign == "-", a, ""))
  {
    DigitsNoChar(a, '.');
    SignFacts(sign, a);
    DecimalOfBody(sign + a, a, [a]);
  }

  /** Proof step: where the sign of `sign + u` is read and what follows it. */
  lemma SignFacts(sign: string, u: string)
    requires sign == "" || sign == "+" || sign == "-"
    requires |u| > 0 && IsDigit(u[0])
    ensures var t := sign + u;
      && |t| > 0 && (t[0] == '-' <==> sign == "-")
      && ((t[0] == '-' || t[0] == '+') ==> t[1..] == u)
      && (!(t[0] == '-' || t[0] == '+') ==> t == u)
  {
    var t := sign + u;
    if sign == "" {
      assert t == u;
    } else {
      assert t[0] == sign[0] && t[1..] == u;
    }
  }

  /** Proof step: the literal is read from the text after its sign. */
  lemma DecimalOfBody(t: string, body: string, parts: seq<string>)
    requires |t| > 0
    requires (t[0] == '-' || t[0] == '+') ==> t[1..] == body
    requires !(t[0] == '-' || t[0] == '+') ==> t == body
    requires Split(body, ".") == parts && 1 <= |parts| <= 2
    requires |parts[0]| > 0 && AllDigits(parts[0])
    requires |parts| == 2 ==> AllDigits(parts[1])
    ensures ParseDecimal(t) == Some(Decimal(t[0] == '-', parts[0], if |parts| == 2 then parts[1] else ""))
  {
  }

  /** A signed decimal comma: "-12,5" is stored as -12, "+12,5" as 12. The whole part's
      value `v` is passed in. */
  lemma BidBondSignedComma(sign: string, a: string, b: string, v: nat)
    requires sign == "" || sign == "+" || sign == "-"
    requires |a| > 0 && AllDigits(a) && AllDigits(b) && v == DigitsValue(a)
    ensures BidBondPercent(sign + a + "," + b) == Some(if sign == "-" then -(v as int) else v)
  {
    SignedCommaRead(sign, a, b);
    TruncateSigned(Decimal(sign == "-", a, b), sign == "-", v);
  }

  /** Proof step: a signed decimal comma reads as the decimal of its parts. */
  lemma SignedCommaRead(sign: string, a: string, b: string)
    requires sign == "" || sign == "+" || sign == "-"
    requires |a| > 0 && AllDigits(a) && AllDigits(b)
    ensures BidBondPercent(sign + a + "," + b) == Some(Truncate(Decimal(sign == "-", a, b)))
  {
    SignedCommaToPoint(sign, a, b);
    SignedPointStripped(sign, a, b);
    SignedDecimal(sign, a, b);
    BidBondOf(sign + a + "," + b, sign + a + "." + b, Decimal(sign == "-", a, b));
  }

  /** Proof step: the truncation of a decimal is its whole part with its sign. */
  lemma TruncateSigned(d: Decimal, negative: bool, v: nat)
    requires AllDigits(d.whole) && AllDigits(d.frac)
    requires d.negative == negative && v == DigitsValue(d.whole)
    ensures Truncate(d) == if negative then -(v as int) else v
  {
  }

  /** Proof step: the bid bond of a text whose cleaned form reads as `d`. */
  lemma BidBondOf(text: string, cleaned: string, d: Decimal)
    requires text != "" && Strip(Replace(text, ",", ".")) == cleaned
    requires ParseDecimal(cleaned) == Some(d)
    ensures BidBondPercent(text) == Some(Truncate(d))
  {
  }

  lemma SignedCommaToPoint(sign: string, a: string, b: string)
    requires sign == "" || sign == "+" || sign == "-"
    requires AllDigits(a) && AllDigits(b)
    ensures Replace(sign + a + "," + b, ",", ".") == sign + a + "." + b
  {
    var head := sign + a;
    DigitsExclude(a, ',');
    forall i | 0 <= i < |head|
      ensures head[i] != ','
    {
      if i >= |sign| {
        assert head[i] == a[i - |sign|];
      }
    }
    SplitNoChar(head, ',');
    DigitsNoChar(b, ',');
    assert sign + a + "," + b == head + [','] + b;
    SplitCat(head, ',', b);
    JoinTwo(head, b, ".");
  }

  lemma SignedPointStripped(sign: string, a: string, b: string)
    requires sign == "" || sign == "+" || sign == "-"
    requires |a| > 0 && AllDigits(a) && AllDigits(b)
    ensures Strip(sign + a + "." + b) == sign + a + "." + b
  {
    var t := sign + a + "." + b;
    if sign == "" {
      assert t[0] == a[0] && IsDigit(a[0]);
    } else {
      assert t[0] == sign[0];
    }
    if |b| > 0 {
      assert t[|t| - 1] == b[|b| - 1] && IsDigit(b[|b| - 1]);
    } else {
      assert t[|t| - 1] == '.';
    }
    StripNoSpaces(t);
  }

  /** A decimal comma: "12,5" is stored as 12. */
  lemma BidBondComma(a: string, b: string)
    requires |a| > 0 && AllDigits(a) && AllDigits(b)
    ensures BidBondPercent(a + "," + b) == Some(DigitsValue(a))
  {
    CommaToPoint(a, b);
    DecimalPoint(a, b);
  }

  /** A whole number is stored as it is: "7" gives 7. */
  lemma BidBondWhole(a: string)
    requires |a| > 0 && AllDigits(a)
    ensures BidBondPercent(a) == Some(DigitsValue(a))
  {
    DigitsExclude(a, ',');
    DigitsExclude(a, '.');
    SplitNoChar(a, ',');
    assert Replace(a, ",", ".") == a;
    assert IsDigit(a[0]) && IsDigit(a[|a| - 1]);
    StripNoSpaces(a);
    SplitNoChar(a, '.');
    DecimalOfBody(a, a, [a]);
  }

  /** Every comma is replaced, so two commas make a literal `float()` rejects. */
  lemma BidBondTwoCommas(a: string, b: string, c: string)
    requires |a| > 0 && AllDigits(a) && AllDigits(b) && |c| > 0 && AllDigits(c)
    ensures BidBondPercent(a + "," + b + "," + c) == None
  {
    TwoCommasToPoints(a, b, c);
    TwoPointsRejected(a, b, c);
  }

  /** Three digit runs joined by a separator split into the three runs. */
  lemma SplitThree(a: string, c: char, b: string, d: string)
    requires AllDigits(a) && AllDigits(b) && AllDigits(d) && !IsDigit(c)
    ensures Split(a + [c] + b + [c] + d, [c]) == [a, b, d]
  {
    var r := b + [c] + d;
    DigitsNoChar(a, c);
    SplitDigitsAt(b, c, d);
    ThreeRegrouped(a, c, b, d);
    SplitAfterPiece(a + [c] + b + [c] + d, a, c, r, [b, d]);
  }

  /** Proof step: regrouping the concatenation so that `SplitAfterPiece` applies. */
  lemma ThreeRegrouped(a: string, c: char, b: string, d: string)
    ensures a + [c] + b + [c] + d == a + [c] + (b + [c] + d)
  {
  }

  /** A separator-free first piece followed by text splitting into `rest`. */
  lemma SplitAfterPiece(s: string, a: string, c: char, r: string, rest: seq<string>)
    requires s == a + [c] + r && Split(a, [c]) == [a] && Split(r, [c]) == rest
    ensures Split(s, [c]) == [a] + rest
  {
    SplitCat(a, c, r);
  }

  lemma TwoCommasToPoints(a: string, b: string, c: string)
    requires AllDigits(a) && AllDigits(b) && AllDigits(c)
    ensures Replace(a + "," + b + "," + c, ",", ".") == a + "." + b + "." + c
  {
    assert a + "," + b + "," + c == a + [','] + b + [','] + c;
    SplitThree(a, ',', b, c);
    assert [a, b, c][1..] == [b, c];
    JoinTwo(b, c, ".");
  }

  lemma TwoPointsRejected(a: string, b: string, c: string)
    requires |a| > 0 && AllDigits(a) && AllDigits(b) && |c| > 0 && AllDigits(c)
    ensures ParseDecimal(Strip(a + "." + b + "." + c)) == None
  {
    var t := a + "." + b + "." + c;
    assert IsDigit(a[0]) && t[0] == a[0];
    assert IsDigit(c[|c| - 1]) && t[|t| - 1] == c[|c| - 1];
    StripNoSpaces(t);
    assert t == a + ['.'] + b + ['.'] + c;
    SplitThree(a, '.', b, c);
  }

  // ---------------------------------------------------------------------------
  // Item detail link

  /** The fixed part of the address. It is written in pieces of at most 16 characters
      so that `PlainPieces` can check its characters one piece at a time. */
  const ItemPage: string :=
    "https://www.swz." + "kghm.pl/rfx/serv" + "let/HomeServlet?" + "MP_module=outErf"
    + "x&MP_action=oute" + "rPositionDetails" + "&"
  const PositionField := "iRequestPosition="
  const PositionTemplate := "iRequestPosition=656276&"
  const RoundField := "iRfxRound="
  const RoundTemplate := "iRfxRound=458987"

  /** The address template of an item page, with sample position and round numbers. */
  const ItemTemplate: string := ItemPage + PositionTemplate + RoundTemplate

  /** The two `replace` calls that put the item id (stripped) and the notice id into
      the template. For a numeric item id each replaces one occurrence, so the link is
      the fixed part, the position field with the item id, and the round field with
      the notice id. */
  function ItemLink(itemId: string, id: string): (r: string)
    ensures AllDigits(Strip(itemId))
      ==> r == ItemPage + PositionField + Strip(itemId) + "&" + RoundField + id
  {
    var link := Replace(ItemTemplate, PositionTemplate, PositionField + Strip(itemId) + "&");
    var r := Replace(link, RoundTemplate, RoundField + id);
    if AllDigits(Strip(itemId)) then
      FirstReplace(itemId);
      SecondReplace(Strip(itemId), id);
      r
    else r
  }

  /** Neither a digit nor an 'R'. */
  predicate Plain(c: char) {
    !IsDigit(c) && c != 'R'
  }

  predicate AllPlain(s: string) {
    forall i :: 0 <= i < |s| ==> Plain(s[i])
  }

  lemma ItemPagePlain()
    ensures AllPlain(ItemPage) && |ItemPage| == 97
  {
    var p, q, r := "https://www.swz." + "kghm.pl/rfx/serv", "let/HomeServlet?" + "MP_module=outErf",
      "x&MP_action=oute" + "rPositionDetails" + "&";
    PlainPieces();
    assert ItemPage == p + q + r;
    PlainCat(p, q);
    PlainCat(p + q, r);
  }

  lemma PlainPieces()
    ensures AllPlain("https://www.swz." + "kghm.pl/rfx/serv")
    ensures AllPlain("let/HomeServlet?" + "MP_module=outErf")
    ensures AllPlain("x&MP_action=oute" + "rPositionDetails" + "&")
  {
    assert AllPlain("https://www.swz.") && AllPlain("kghm.pl/rfx/serv");
    assert AllPlain("let/HomeServlet?") && AllPlain("MP_module=outErf");
    assert AllPlain("x&MP_action=oute") && AllPlain("rPositionDetails") && AllPlain("&");
  }

  lemma PlainCat(a: string, b: string)
    requires AllPlain(a) && AllPlain(b)
    ensures AllPlain(a + b)
  {
    forall i | 0 <= i < |a + b|
      ensures Plain((a + b)[i])
    {
      if i < |a| {
        assert (a + b)[i] == a[i];
      } else {
        assert (a + b)[i] == b[i - |a|];
      }
    }
  }

  /** After "iR", the position field holds no digit and no 'R'. */
  lemma PositionFieldPlain()
    ensures forall i :: 2 <= i < |PositionField| ==> Plain(PositionField[i])
    ensures PositionField[0] == 'i' && PositionField[1] == 'R' && PositionField[4] == 'u'
  {
    assert PositionField == "iR" + "equestPosition=";
    assert AllPlain("equestPosition=");
  }

  /** The template's position field is found after the fixed part: its '6' at offset
      17 is the first digit of the template. */
  lemma PositionFoundFirst()
    ensures Find(ItemTemplate, PositionTemplate, 0) == |ItemPage|
  {
    var s := ItemTemplate;
    var n := |ItemPage|;
    ItemPagePlain();
    assert PositionTemplate[17] == '6';
    assert s == ItemPage + PositionTemplate + RoundTemplate;
    assert s[n..n + 24] == PositionTemplate;
    forall j: nat | j < n
      ensures !At(s, PositionTemplate, j)
    {
      TemplateHeadChars(j + 17);
      Mismatch(s, PositionTemplate, j, j + 17);
    }
    FindIs(s, PositionTemplate, 0, n);
  }

  /** The template holds no digit before the position number. */
  lemma TemplateHeadChars(k: nat)
    requires k < |ItemPage| + 17
    ensures k < |ItemTemplate| && !IsDigit(ItemTemplate[k])
  {
    var n := |ItemPage|;
    ItemPagePlain();
    PositionFieldPlain();
    assert PositionTemplate[..17] == PositionField;
    if k < n {
      assert ItemTemplate[k] == ItemPage[k] && Plain(ItemPage[k]);
    } else {
      assert ItemTemplate[k] == PositionTemplate[k - n] == PositionField[k - n];
      if k - n >= 2 {
        assert Plain(PositionField[k - n]);
      }
    }
  }

  lemma FirstReplace(itemId: string)
    ensures Replace(ItemTemplate, PositionTemplate, PositionField + Strip(itemId) + "&")
      == ItemPage + (PositionField + Strip(itemId) + "&") + RoundTemplate
  {
    PositionFoundFirst();
    assert forall j: nat :: !At(RoundTemplate, PositionTemplate, j);
    ReplaceOnce(ItemPage, PositionTemplate, RoundTemplate, PositionField + Strip(itemId) + "&");
  }

  /** The inserted position field holds no 'R' except the one of "iR". */
  lemma PositionPartChars(d: string, k: nat)
    requires AllDigits(d) && k < |PositionField + d + "&"| && k != 1
    ensures (PositionField + d + "&")[k] != 'R'
  {
    var p := PositionField + d + "&";
    PositionFieldPlain();
    if k < 17 {
      assert p[k] == PositionField[k];
      if k >= 2 {
        assert Plain(PositionField[k]);
      }
    } else if k < 17 + |d| {
      assert p[k] == d[k - 17] && IsDigit(d[k - 17]);
    } else {
      assert p[k] == '&';
    }
  }

  /** A plain page followed by the position field holds no 'R' except the one of
      "iRequestPosition". */
  lemma LinkHeadChars(page: string, d: string, k: nat)
    requires AllPlain(page) && AllDigits(d)
    requires k < |page| + |PositionField + d + "&"| && k != |page| + 1
    ensures (page + (PositionField + d + "&"))[k] != 'R'
  {
    var x := page + (PositionField + d + "&");
    if k < |page| {
      assert x[k] == page[k] && Plain(page[k]);
    } else {
      assert x[k] == (PositionField + d + "&")[k - |page|];
      PositionPartChars(d, k - |page|);
    }
  }

  /** The template's round field is found right after the inserted position. */
  lemma RoundFoundAfter(d: string)
    requires AllDigits(d)
    ensures var x := ItemPage + (PositionField + d + "&");
      Find(x + RoundTemplate, RoundTemplate, 0) == |x|
  {
    var x := ItemPage + (PositionField + d + "&");
    var s := x + RoundTemplate;
    ItemPagePlain();
    forall j: nat | j < |x|
      ensures !At(s, RoundTemplate, j)
    {
      RoundNotAt(ItemPage, d, j);
    }
    assert s[|x|..] == RoundTemplate;
    FindIs(s, RoundTemplate, 0, |x|);
  }

  /** No occurrence of the round template starts inside a plain page followed by the
      position field. */
  lemma RoundNotAt(page: string, d: string, j: nat)
    requires AllPlain(page) && AllDigits(d)
    requires j < |page + (PositionField + d + "&")|
    ensures !At(page + (PositionField + d + "&") + RoundTemplate, RoundTemplate, j)
  {
    var x := page + (PositionField + d + "&");
    var s := x + RoundTemplate;
    var n := |page|;
    PositionFieldPlain();
    assert RoundTemplate[1] == 'R' && RoundTemplate[4] == 'R';
    if j == n {
      assert s[j + 4] == x[n + 4] == (PositionField + d + "&")[4] == PositionField[4];
      Mismatch(s, RoundTemplate, j, j + 4);
    } else if j + 1 < |x| {
      LinkHeadChars(page, d, j + 1);
      assert s[j + 1] == x[j + 1];
      Mismatch(s, RoundTemplate, j, j + 1);
    } else {
      assert s[j + 1] == RoundTemplate[0] == 'i';
      Mismatch(s, RoundTemplate, j, j + 1);
    }
  }

  /** The second `replace` swaps the round template for the notice's round field. */
  lemma SecondReplace(d: string, id: string)
    requires AllDigits(d)
    ensures Replace(ItemPage + (PositionField + d + "&") + RoundTemplate, RoundTemplate, RoundField + id)
      == ItemPage + PositionField + d + "&" + RoundField + id
  {
    var x := ItemPage + (PositionField + d + "&");
    RoundFoundAfter(d);
    assert x + RoundTemplate == x + RoundTemplate + "";
    assert forall j: nat :: !At("", RoundTemplate, j);
    ReplaceOnce(x, RoundTemplate, "", RoundField + id);
    assert x + (RoundField + id) + "" == ItemPage + PositionField + d + "&" + RoundField + id;
  }

  /** Splitting the link at "iRfxRound=", as the scanner does with listing links, gives
      back a numeric notice id. */
  lemma ItemLinkRoundTrip(itemId: string, id: string)
    requires AllDigits(Strip(itemId)) && AllDigits(id)
    ensures LastPiece(ItemLink(itemId, id), RoundField) == id
  {
    assert UniqueHead(RoundField);
    DigitsExclude(id, 'i');
    assert ItemLink(itemId, id) == (ItemPage + PositionField + Strip(itemId) + "&") + RoundField + id;
    LastPieceOfTail(ItemPage + PositionField + Strip(itemId) + "&", RoundField, id);
  }
}
