// The two attachment loops of scraper.py. The first walks the attachment links of a
// notice page in order, makes each name ASCII-safe and keeps the name when its download
// succeeded; the second walks the kept names and keeps the storage key of each upload
// that succeeded. Downloads and uploads are outside the model: their outcomes are given
// as one boolean per element, in order.

module Attachments {
  import opened Optional
  import opened PyText
  import opened Calendar
  import opened Transliteration

  // ---------------------------------------------------------------------------
  // Order-preserving filter

  /** The elements of `xs` whose flag in `ok` is set, in their order. */
  function Kept<T>(xs: seq<T>, ok: seq<bool>): (r: seq<T>)
    requires |ok| == |xs|
    ensures |r| <= |xs|
  {
    if xs == [] then []
    else Kept(xs[..|xs| - 1], ok[..|ok| - 1]) + (if ok[|ok| - 1] then [xs[|xs| - 1]] else [])
  }

  function CountTrue(ok: seq<bool>): nat {
    if ok == [] then 0 else CountTrue(ok[..|ok| - 1]) + (if ok[|ok| - 1] then 1 else 0)
  }

  /** One kept element per set flag. */
  lemma {:induction false} KeptCount<T>(xs: seq<T>, ok: seq<bool>)
    requires |ok| == |xs|
    ensures |Kept(xs, ok)| == CountTrue(ok)
  {
    if xs != [] {
      KeptCount(xs[..|xs| - 1], ok[..|ok| - 1]);
    }
  }

  /** Filtering a concatenation filters each part: the kept elements keep their order. */
  lemma {:induction false} KeptAppend<T>(xs: seq<T>, ys: seq<T>, okx: seq<bool>, oky: seq<bool>)
    requires |okx| == |xs| && |oky| == |ys|
    ensures Kept(xs + ys, okx + oky) == Kept(xs, okx) + Kept(ys, oky)
    decreases |ys|
  {
    if ys == [] {
      assert xs + ys == xs && okx + oky == okx;
    } else {
      var n := |ys| - 1;
      assert (xs + ys)[..|xs| + n] == xs + ys[..n];
      assert (okx + oky)[..|okx| + n] == okx + oky[..n];
      KeptAppend(xs, ys[..n], okx, oky[..n]);
    }
  }

  /** Every kept element comes from a position whose flag is set. */
  lemma {:induction false} KeptFrom<T>(xs: seq<T>, ok: seq<bool>, x: T)
    requires |ok| == |xs| && x in Kept(xs, ok)
    ensures exists j :: 0 <= j < |xs| && ok[j] && xs[j] == x
  {
    var n := |xs| - 1;
    if x in Kept(xs[..n], ok[..n]) {
      KeptFrom(xs[..n], ok[..n], x);
      var j :| 0 <= j < n && ok[..n][j] && xs[..n][j] == x;
      assert ok[j] && xs[j] == x;
    } else {
      assert ok[n] && xs[n] == x;
    }
  }

  /** With every flag set, nothing is dropped. */
  lemma {:induction false} KeptAll<T>(xs: seq<T>, ok: seq<bool>)
    requires |ok| == |xs| && forall j :: 0 <= j < |ok| ==> ok[j]
    ensures Kept(xs, ok) == xs
  {
    if xs != [] {
      KeptAll(xs[..|xs| - 1], ok[..|ok| - 1]);
      assert xs == xs[..|xs| - 1] + [xs[|xs| - 1]];
    }
  }

  // ---------------------------------------------------------------------------
  // Storage key

  /** `"{}-{}".format(d.year, d.month)` of the publication date read back with
      `strptime(date_published, "%Y-%m-%d %H:%M")`; None where strptime raises. */
  function DatePath(published: string): (r: Option<string>)
    ensures r.Some? ==> exists dt :: Valid(dt) && r.value == IntToString(dt.year) + "-" + IntToString(dt.month)
  {
    match Strptime(published)
    case None => None
    case Some(dt) => Some(IntToString(dt.year) + "-" + IntToString(dt.month))
  }

  /** The publication date the scraper formats itself always reads back, and its path
      has the year and the month without zero padding. */
  lemma DatePathOfStrftime(dt: DateTime)
    requires Valid(dt) && dt.year >= 1000
    ensures DatePath(Strftime(dt)) == Some(NatToString(dt.year) + "-" + NatToString(dt.month))
    ensures dt.month < 10 ==> |NatToString(dt.month)| == 1
  {
    StrptimeStrftime(dt);
  }

  /** Splitting the path at "-" and reading both halves with `int()` gives back the
      year and the month. */
  lemma DatePathReadsBack(year: nat, month: nat)
    ensures var parts := Split(NatToString(year) + "-" + NatToString(month), "-");
      && |parts| == 2
      && PyInt(parts[0]) == Some(year as int) && PyInt(parts[1]) == Some(month as int)
  {
    var y, m := NatToString(year), NatToString(month);
    DigitsExclude(y, '-');
    DigitsExclude(m, '-');
    SplitNoChar(y, '-');
    SplitNoChar(m, '-');
    assert y + "-" + m == y + ['-'] + m;
    SplitCat(y, '-', m);
    IntRoundTrip(year);
    IntRoundTrip(month);
  }

  predicate NoSlash(s: string) {
    forall i :: 0 <= i < |s| ==> s[i] != '/'
  }

  /** `date_path + "/" + _id + "/" + attachment_name`. When none of the three holds a
      "/", the key splits at "/" back into them. */
  function StorageKey(datePath: string, id: string, name: string): (r: string)
    ensures NoSlash(datePath) && NoSlash(id) && NoSlash(name) ==> Split(r, "/") == [datePath, id, name]
  {
    var r := datePath + "/" + id + "/" + name;
    if NoSlash(datePath) && NoSlash(id) && NoSlash(name) then
      SlashJoinSplits(datePath, id, name);
      r
    else r
  }

  /** Proof step: three slash-free parts joined by "/" split back into them. */
  lemma SlashJoinSplits(a: string, b: string, c: string)
    requires NoSlash(a) && NoSlash(b) && NoSlash(c)
    ensures Split(a + "/" + b + "/" + c, "/") == [a, b, c]
  {
    SplitNoChar(a, '/');
    SplitNoChar(b, '/');
    SplitNoChar(c, '/');
    SplitCat(b, '/', c);
    assert a + "/" + b + "/" + c == a + ['/'] + (b + ['/'] + c);
    SplitCat(a, '/', b + ['/'] + c);
  }

  /** The date path of a valid date never holds a "/". */
  lemma DatePathNoSlash(year: nat, month: nat)
    ensures NoSlash(NatToString(year) + "-" + NatToString(month))
  {
    DigitsExclude(NatToString(year), '/');
    DigitsExclude(NatToString(month), '/');
  }

  // ---------------------------------------------------------------------------
  // The two loops

  function TransliteratedAll(names: seq<string>): (r: seq<string>)
    ensures |r| == |names|
  {
    seq(|names|, i requires 0 <= i < |names| => Transliterated(names[i]))
  }

  function StorageKeys(datePath: string, id: string, names: seq<string>): (r: seq<string>)
    ensures |r| == |names|
  {
    seq(|names|, i requires 0 <= i < |names| => StorageKey(datePath, id, names[i]))
  }

  /** The download loop: `attachments_name_list` is the converted names of the
      attachments whose download succeeded, in page order. */
  method DownloadAttachments(rawNames: seq<string>, downloaded: seq<bool>) returns (names: seq<string>)
    requires |downloaded| == |rawNames|
    ensures names == Kept(TransliteratedAll(rawNames), downloaded)
  {
    names := [];
    for i := 0 to |rawNames|
      invariant names == Kept(TransliteratedAll(rawNames)[..i], downloaded[..i])
    {
      var atName := ConvertCharacters(rawNames[i]);
      assert TransliteratedAll(rawNames)[..i + 1][..i] == TransliteratedAll(rawNames)[..i];
      assert downloaded[..i + 1][..i] == downloaded[..i];
      if downloaded[i] {
        names := names + [atName];
      }
    }
    assert TransliteratedAll(rawNames)[..|rawNames|] == TransliteratedAll(rawNames);
    assert downloaded[..|rawNames|] == downloaded;
  }

  /** The upload loop: `attachments_urls_list` is the storage keys of the names whose
      upload succeeded, in order. */
  method UploadAttachments(datePath: string, id: string, names: seq<string>, uploaded: seq<bool>)
    returns (urls: seq<string>)
    requires |uploaded| == |names|
    ensures urls == Kept(StorageKeys(datePath, id, names), uploaded)
  {
    urls := [];
    for i := 0 to |names|
      invariant urls == Kept(StorageKeys(datePath, id, names)[..i], uploaded[..i])
    {
      var attachmentUrl := datePath + "/" + id + "/" + names[i];
      assert StorageKeys(datePath, id, names)[..i + 1][..i] == StorageKeys(datePath, id, names)[..i];
      assert uploaded[..i + 1][..i] == uploaded[..i];
      if uploaded[i] {
        urls := urls + [attachmentUrl];
      }
    }
    assert StorageKeys(datePath, id, names)[..|names|] == StorageKeys(datePath, id, names);
    assert uploaded[..|names|] == uploaded;
  }

  /** Both loops together: never more keys than attachment links, and every key is the
      key of a converted name whose download and upload both succeeded. */
  lemma AttachmentsEndToEnd(datePath: string, id: string, rawNames: seq<string>,
                            downloaded: seq<bool>, uploaded: seq<bool>)
    requires |downloaded| == |rawNames|
    requires |uploaded| == |Kept(TransliteratedAll(rawNames), downloaded)|
    ensures var names := Kept(TransliteratedAll(rawNames), downloaded);
      var urls := Kept(StorageKeys(datePath, id, names), uploaded);
      && |urls| <= |names| <= |rawNames|
      && |names| == CountTrue(downloaded) && |urls| == CountTrue(uploaded)
      && (forall u :: u in urls ==>
            exists j :: 0 <= j < |rawNames| && downloaded[j] && u == StorageKey(datePath, id, Transliterated(rawNames[j])))
      && (forall u :: u in urls ==>
            exists k :: 0 <= k < |names| && uploaded[k] && u == StorageKey(datePath, id, names[k]))
  {
    var names := Kept(TransliteratedAll(rawNames), downloaded);
    var keys := StorageKeys(datePath, id, names);
    var urls := Kept(keys, uploaded);
    KeptCount(TransliteratedAll(rawNames), downloaded);
    KeptCount(keys, uploaded);
    forall u | u in urls
      ensures exists j :: 0 <= j < |rawNames| && downloaded[j] && u == StorageKey(datePath, id, Transliterated(rawNames[j]))
    {
      KeptFrom(keys, uploaded, u);
      var k :| 0 <= k < |keys| && uploaded[k] && keys[k] == u;
      assert names[k] in names;
      KeptFrom(TransliteratedAll(rawNames), downloaded, names[k]);
      var j :| 0 <= j < |rawNames| && downloaded[j] && TransliteratedAll(rawNames)[j] == names[k];
      assert u == StorageKey(datePath, id, Transliterated(rawNames[j]));
    }
    forall u | u in urls
      ensures exists k :: 0 <= k < |names| && uploaded[k] && u == StorageKey(datePath, id, names[k])
    {
      KeptFrom(keys, uploaded, u);
    }
  }
}
