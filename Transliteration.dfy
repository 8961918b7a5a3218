// Attachment file names are made ASCII-safe by replacing the eighteen Polish
// diacritic letters with their base letters (scraper.py, `convert_characters`).

module Transliteration {

  /** The letters replaced, in the order of the source's table:
      ą ę ć ź ż ó ł ń ś Ą Ę Ć Ź Ż Ó Ł Ń Ś */
  const Diacritics: seq<char> := [
    '\U{105}', '\U{119}', '\U{107}', '\U{17a}', '\U{17c}', '\U{f3}', '\U{142}', '\U{144}', '\U{15b}',
    '\U{104}', '\U{118}', '\U{106}', '\U{179}', '\U{17b}', '\U{d3}', '\U{141}', '\U{143}', '\U{15a}'
  ]

  /** Their replacements, position by position. */
  const BaseLetters: seq<char> := [
    'a', 'e', 'c', 'z', 'z', 'o', 'l', 'n', 's',
    'A', 'E', 'C', 'Z', 'Z', 'O', 'L', 'N', 'S'
  ]

  /** The dictionary `dict(zip(Diacritics, BaseLetters))`. */
  const Table: map<char, char> := map[
    '\U{105}' := 'a', '\U{119}' := 'e', '\U{107}' := 'c', '\U{17a}' := 'z', '\U{17c}' := 'z',
    '\U{f3}' := 'o', '\U{142}' := 'l', '\U{144}' := 'n', '\U{15b}' := 's',
    '\U{104}' := 'A', '\U{118}' := 'E', '\U{106}' := 'C', '\U{179}' := 'Z', '\U{17b}' := 'Z',
    '\U{d3}' := 'O', '\U{141}' := 'L', '\U{143}' := 'N', '\U{15a}' := 'S'
  ]

  /** One character: looked up in the table, or kept as it is. */
  function Transliterate(c: char): char {
    if c in Table then Table[c] else c
  }

  /** The whole name, character by character. */
  function Transliterated(s: string): (r: string)
    ensures |r| == |s|
  {
    if s == [] then [] else Transliterated(s[..|s| - 1]) + [Transliterate(s[|s| - 1])]
  }

  /** `convert_characters`: builds the output one character at a time. */
  method ConvertCharacters(input: string) returns (out: string)
    ensures out == Transliterated(input)
  {
    out := [];
    var i := 0;
    while i < |input|
      invariant 0 <= i <= |input|
      invariant out == Transliterated(input[..i])
    {
      assert input[..i + 1][..i] == input[..i];
      out := out + [Transliterate(input[i])];
      i := i + 1;
    }
    assert input[..i] == input;
  }

  /** The table is the zip of the two letter lists. */
  lemma TableIsZip()
    ensures |Diacritics| == |BaseLetters| == 18 && Table.Keys == set c | c in Diacritics
    ensures forall i :: 0 <= i < 18 ==> Transliterate(Diacritics[i]) == BaseLetters[i]
  {
    TableKeys();
    ZipLower();
    ZipUpper();
  }

  lemma TableKeys()
    ensures Table.Keys == set c | c in Diacritics
  {
  }

  lemma ZipLower()
    ensures forall i :: 0 <= i < 9 ==> Transliterate(Diacritics[i]) == BaseLetters[i]
  {
  }

  lemma ZipUpper()
    ensures forall i :: 9 <= i < 18 ==> Transliterate(Diacritics[i]) == BaseLetters[i]
  {
  }

  /** Each output character is the table image of the input character at the same
      position; characters outside the table are copied unchanged. */
  lemma {:induction false} TransliteratedAt(s: string, i: nat)
    requires i < |s|
    ensures Transliterated(s)[i] == Transliterate(s[i])
    ensures s[i] !in Table ==> Transliterated(s)[i] == s[i]
    decreases |s|
  {
    if i < |s| - 1 {
      TransliteratedAt(s[..|s| - 1], i);
    }
  }

  /** Every replaced letter lies above ASCII and every replacement is an ASCII letter. */
  lemma TableShape()
    ensures forall c :: c in Table ==> '\U{d3}' <= c && 'A' <= Table[c] <= 'z'
  {
  }

  /** A converted character is never one the table replaces. */
  lemma ImageOutsideTable(c: char)
    ensures Transliterate(c) !in Table
  {
    TableShape();
    if c in Table {
      assert Transliterate(c) <= 'z';
    }
  }

  /** No diacritic from the table survives. */
  lemma NoDiacriticLeft(s: string)
    ensures forall i :: 0 <= i < |s| ==> Transliterated(s)[i] !in Table
  {
    forall i | 0 <= i < |s|
      ensures Transliterated(s)[i] !in Table
    {
      TransliteratedAt(s, i);
      ImageOutsideTable(s[i]);
    }
  }

  /** Converting twice changes nothing more than converting once. */
  lemma Idempotent(s: string)
    ensures Transliterated(Transliterated(s)) == Transliterated(s)
  {
    NoDiacriticLeft(s);
    PlainNameUnchanged(Transliterated(s));
  }

  /** A name made only of characters outside the table is returned unchanged. */
  lemma PlainNameUnchanged(s: string)
    requires forall i :: 0 <= i < |s| ==> s[i] !in Table
    ensures Transliterated(s) == s
  {
    forall i | 0 <= i < |s|
      ensures Transliterated(s)[i] == s[i]
    {
      TransliteratedAt(s, i);
    }
  }
}
