/**
 * The relational generation of the blog: the primary-key default `_gen_pk`,
 * whose month and day are zero-padded, the upload paths of an article's
 * thumbnail and banner, and the article's display string.
 */
module Models {
  import opened Wrappers
  import opened Text
  import opened DateKey

  // ---------------------------------------------------------------------------
  // _gen_pk

  /** `f"{year}{month:02d}{day:02d}"`: the date with month and day zero-padded. */
  function PkPrefix(date: Date): (s: string)
    ensures |s| >= 5 && IsDigits(s)
  {
    ZeroPad2Value(date.month);
    ZeroPad2Value(date.day);
    Str(date.year) + ZeroPad2(date.month) + ZeroPad2(date.day)
  }

  /**
   * `int(f"{year}{month:02d}{day:02d}{i:02d}"[2:])`: below 100 the suffix is
   * the last two decimal digits, and the digits before them are the padded date
   * prefix with its first two characters dropped.
   */
  function PkCandidate(date: Date, i: nat): (pk: nat)
    ensures i < 100 ==> pk % 100 == i && pk / 100 == Int(PkPrefix(date)[2..])
  {
    var prefix := PkPrefix(date);
    if i < 100 then
      TwoDigitSuffixCandidate(prefix, i);
      DivMod100(Candidate(prefix, i), Int(prefix[2..]), i);
      Candidate(prefix, i)
    else
      Candidate(prefix, i)
  }

  /** Suffix `k` is the first whose candidate is not an existing primary key. */
  predicate FirstFreeSuffix(pks: set<int>, date: Date, k: nat)
  {
    1 <= k && PkCandidate(date, k) !in pks
    && forall j :: 1 <= j < k ==> PkCandidate(date, j) in pks
  }

  /**
   * `_gen_pk`, with the current time given as `date` and the existing articles'
   * primary keys as `pks` (`Article.objects.get(pk=pk)` succeeds exactly for
   * those).
   */
  method GenPk(date: Date, pks: set<int>) returns (pk: nat)
    ensures pk !in pks
    ensures exists k: nat :: k <= |pks| + 1 && FirstFreeSuffix(pks, date, k) && pk == PkCandidate(date, k)
    ensures PkCandidate(date, 1) !in pks ==> pk == PkCandidate(date, 1)
  {
    forall i: nat, j: nat | 1 <= i < j ensures PkCandidate(date, i) < PkCandidate(date, j) {
      CandidateIncreasing(PkPrefix(date), i, j);
    }
    var candidate := (i: nat) => PkCandidate(date, i);
    var stored := (x: int) => x in pks;
    var k;
    pk, k := FirstFreeCandidate(candidate, stored, pks);
    forall j | 1 <= j < k ensures PkCandidate(date, j) in pks {
      assert stored(candidate(j));
    }
    assert FirstFreeSuffix(pks, date, k);
  }

  /**
   * For a four-digit year and a two-digit suffix the key reads as YYMMDDNN:
   * the year within its century, then month, day and suffix, two digits each.
   */
  lemma {:induction false} PkCandidateDigits(date: Date, i: nat)
    requires 1000 <= date.year <= 9999 && ValidDate(date)
    requires 1 <= i <= 99
    ensures PkCandidate(date, i)
         == (date.year % 100) * 1000000 + date.month * 10000 + date.day * 100 + i
  {
    TwoDigitSuffixCandidate(PkPrefix(date), i);
    PkPrefixValue(date);
    Regroup(date.year % 100, date.month, date.day, i);
  }

  /** The prefix with its first two characters dropped reads as YYMMDD. */
  lemma {:induction false} PkPrefixValue(date: Date)
    requires 1000 <= date.year <= 9999 && ValidDate(date)
    ensures Int(PkPrefix(date)[2..]) == ((date.year % 100) * 100 + date.month) * 100 + date.day
  {
    var y, m, d := Str(date.year), ZeroPad2(date.month), ZeroPad2(date.day);
    LastTwoDigits(date.year);
    ZeroPad2Value(date.month);
    ZeroPad2Value(date.day);
    assert PkPrefix(date)[2..] == (y[2..] + m) + d;
    IntConcat(y[2..] + m, d);
    IntConcat(y[2..], m);
  }

  lemma Regroup(c: nat, m: nat, d: nat, i: nat)
    ensures ((c * 100 + m) * 100 + d) * 100 + i == c * 1000000 + m * 10000 + d * 100 + i
  {
  }

  /**
   * With month and day padded, two dates in the same century and two-digit
   * suffixes never give the same key unless date and suffix are the same.
   */
  lemma {:induction false} PkCandidateInjective(d1: Date, i1: nat, d2: Date, i2: nat)
    requires 1000 <= d1.year <= 9999 && ValidDate(d1) && 1 <= i1 <= 99
    requires 1000 <= d2.year <= 9999 && ValidDate(d2) && 1 <= i2 <= 99
    requires d1.year / 100 == d2.year / 100
    requires PkCandidate(d1, i1) == PkCandidate(d2, i2)
    ensures d1 == d2 && i1 == i2
  {
    PkCandidateDigits(d1, i1);
    PkCandidateDigits(d2, i2);
    var a1 := (d1.year % 100) * 100 + d1.month;
    var a2 := (d2.year % 100) * 100 + d2.month;
    var b1 := a1 * 100 + d1.day;
    var b2 := a2 * 100 + d2.day;
    assert PkCandidate(d1, i1) == b1 * 100 + i1;
    assert PkCandidate(d2, i2) == b2 * 100 + i2;
    DivMod100(PkCandidate(d1, i1), b1, i1);
    DivMod100(PkCandidate(d2, i2), b2, i2);
    DivMod100(b1, a1, d1.day);
    DivMod100(b2, a2, d2.day);
    DivMod100(a1, d1.year % 100, d1.month);
    DivMod100(a2, d2.year % 100, d2.month);
    assert d1.year == d1.year / 100 * 100 + d1.year % 100;
    assert d2.year == d2.year / 100 * 100 + d2.year % 100;
  }

  /** The first key of 2024-03-09 is 24030901. */
  lemma {:induction false} PkCandidateExample()
    ensures PkCandidate(Date(2024, 3, 9), 1) == 24030901
  {
    PkCandidateDigits(Date(2024, 3, 9), 1);
  }

  // ---------------------------------------------------------------------------
  // Upload locations

  /** `f'{id}/{kind}.{filename.split('.')[1]}'`; `None` is the IndexError of a dot-less name. */
  function UploadLocation(id: nat, kind: string, filename: string): (r: Option<string>)
    ensures r.None? <==> '.' !in filename
  {
    var parts := Split(filename, '.');
    if |parts| < 2 then None else Some(Str(id) + "/" + kind + "." + parts[1])
  }

  /** `_thumb_loc(instance, filename)`. */
  function ThumbLoc(id: nat, filename: string): (r: Option<string>)
    ensures r.None? <==> '.' !in filename
  {
    UploadLocation(id, "thumb", filename)
  }

  /** `_banner_loc(instance, filename)`. */
  function BannerLoc(id: nat, filename: string): (r: Option<string>)
    ensures r.None? <==> '.' !in filename
  {
    UploadLocation(id, "banner", filename)
  }

  /**
   * The extension kept is the text between the first dot and the next one:
   * `a.tar.gz` keeps `tar`.
   */
  lemma {:induction false} UploadLocationExtension(id: nat, kind: string, stem: string, ext: string, rest: string)
    requires '.' !in stem && '.' !in ext && (rest == [] || rest[0] == '.')
    ensures UploadLocation(id, kind, stem + "." + ext + rest) == Some(Str(id) + "/" + kind + "." + ext)
  {
    SplitSecond(stem, ext, rest, '.');
  }

  /** Different articles never share an upload location. */
  lemma {:induction false} UploadLocationSeparatesIds(id1: nat, f1: string, id2: nat, f2: string, kind: string)
    requires UploadLocation(id1, kind, f1).Some? && UploadLocation(id2, kind, f2).Some?
    requires UploadLocation(id1, kind, f1) == UploadLocation(id2, kind, f2)
    ensures id1 == id2
  {
    var p1, p2 := Split(f1, '.'), Split(f2, '.');
    var x, y := "/" + kind + "." + p1[1], "/" + kind + "." + p2[1];
    assert Str(id1) + "/" + kind + "." + p1[1] == Str(id1) + x;
    assert Str(id2) + "/" + kind + "." + p2[1] == Str(id2) + y;
    StrThenNonDigit(id1, x, id2, y);
  }

  // ---------------------------------------------------------------------------
  // Article.__str__

  /**
   * `f"[{self.id}] {self.title}"`: the id reads back from between the brackets
   * and the title follows the closing bracket and a space.
   */
  function ArticleLabel(id: nat, title: string): (s: string)
    ensures |s| == |Str(id)| + |title| + 3 && s[0] == '['
    ensures IsDigits(s[1..|Str(id)| + 1]) && Int(s[1..|Str(id)| + 1]) == id
    ensures s[|Str(id)| + 1..] == "] " + title
  {
    var s := "[" + Str(id) + "] " + title;
    assert s[1..|Str(id)| + 1] == Str(id);
    assert s[|Str(id)| + 1..] == "] " + title;
    IntStr(id);
    s
  }

  /** The label names its article: id and title can be read back from it. */
  lemma {:induction false} ArticleLabelInjective(id1: nat, title1: string, id2: nat, title2: string)
    requires ArticleLabel(id1, title1) == ArticleLabel(id2, title2)
    ensures id1 == id2 && title1 == title2
  {
    BracketedNumberThenText(id1, title1, id2, title2);
  }

  lemma {:induction false} BracketedNumberThenText(id1: nat, title1: string, id2: nat, title2: string)
    requires "[" + Str(id1) + "] " + title1 == "[" + Str(id2) + "] " + title2
    ensures id1 == id2 && title1 == title2
  {
    var l1, l2 := "[" + Str(id1) + "] " + title1, "[" + Str(id2) + "] " + title2;
    assert l1[1..] == Str(id1) + ("] " + title1);
    assert l2[1..] == Str(id2) + ("] " + title2);
    StrThenNonDigit(id1, "] " + title1, id2, "] " + title2);
    assert title1 == ("] " + title1)[2..] == ("] " + title2)[2..] == title2;
  }
}
