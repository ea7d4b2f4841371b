/**
  The environment-variable parsers of the backend's configuration loader
  (backend/app/config.py) and the defaulting and fallback rules that turn an
  environment into the application's settings.
 */
module Config {
  import opened Wrappers
  import opened PyStr

  /** The words `_get_bool` reads as true, after stripping and lower-casing. */
  const TrueWords: set<string> := {"1", "true", "yes", "y", "on"}

  /** `_get_bool(value, default)`. */
  function GetBool(value: Option<string>, default: bool): (r: bool)
    ensures value.None? ==> r == default
    ensures value.Some? ==> (r <==> Lower(Strip(StrSpaces, value.value)) in TrueWords)
  {
    match value
    case None => default
    case Some(v) => Lower(Strip(StrSpaces, v)) in TrueWords
  }

  /** A present value decides `_get_bool` alone: the default plays no part. */
  lemma GetBoolIgnoresDefault(v: string, d1: bool, d2: bool)
    ensures GetBool(Some(v), d1) == GetBool(Some(v), d2)
  {
  }

  /** Surrounding whitespace never changes what `_get_bool` reads. */
  lemma GetBoolIgnoresPadding(pre: string, v: string, suf: string, d: bool)
    requires AllSpace(StrSpaces, pre) && AllSpace(StrSpaces, suf)
    ensures GetBool(Some(pre + v + suf), d) == GetBool(Some(v), d)
  {
    StripIgnoresPadding(StrSpaces, pre, v, suf);
  }

  /** Letter case never changes what `_get_bool` reads. */
  lemma {:induction false} GetBoolIgnoresCase(v: string, w: string, d: bool)
    requires Lower(v) == Lower(w)
    ensures GetBool(Some(v), d) == GetBool(Some(w), d)
  {
    LowerStripCommute(v);
    LowerStripCommute(w);
    LowerIdempotent(Strip(StrSpaces, Lower(v)));
  }

  lemma LowerIdempotent(s: string)
    ensures Lower(Lower(s)) == Lower(s)
  {
  }

  lemma LowerKeepsSpace(c: char)
    ensures IsSpace(StrSpaces, LowerChar(c)) == IsSpace(StrSpaces, c)
  {
  }

  lemma {:induction false} LowerStripCommute(s: string)
    ensures Lower(Strip(StrSpaces, s)) == Strip(StrSpaces, Lower(s))
  {
    var pre, suf := StripSplits(StrSpaces, s);
    var t := Strip(StrSpaces, s);
    LowerConcat(pre, t, suf);
    LowerAllSpace(pre);
    LowerAllSpace(suf);
    assert Stripped(StrSpaces, Lower(t)) by {
      if t != [] {
        LowerKeepsSpace(t[0]);
        LowerKeepsSpace(t[|t| - 1]);
      }
    }
    StripUnique(StrSpaces, Lower(pre), Lower(t), Lower(suf));
  }

  lemma LowerConcat(a: string, b: string, c: string)
    ensures Lower(a + b + c) == Lower(a) + Lower(b) + Lower(c)
  {
  }

  lemma LowerAllSpace(s: string)
    requires AllSpace(StrSpaces, s)
    ensures AllSpace(StrSpaces, Lower(s))
  {
    forall i | 0 <= i < |s| ensures IsSpace(StrSpaces, Lower(s)[i]) {
      LowerKeepsSpace(s[i]);
    }
  }

  // ---------------------------------------------------------------------
  // `_get_int`: Python's `int(str)` for base 10, with a default on failure.
  // ---------------------------------------------------------------------

  predicate IsDigit(c: char) {
    '0' <= c <= '9'
  }

  function DigitValue(c: char): (r: nat)
    requires IsDigit(c)
    ensures r < 10
  {
    c as int - '0' as int
  }

  /**
    The digit part of a base-10 literal that `int()` accepts: ASCII digits,
    optionally grouped by single underscores that sit between two digits.
   */
  predicate WellFormedDigits(d: string) {
    && |d| > 0
    && IsDigit(d[0])
    && IsDigit(d[|d| - 1])
    && (forall i :: 0 <= i < |d| ==> IsDigit(d[i]) || d[i] == '_')
    && (forall i :: 0 <= i < |d| - 1 && d[i] == '_' ==> d[i + 1] != '_')
  }

  /** The value of a run of digits, underscores being skipped. */
  function DigitsValue(d: string): nat
    requires forall i :: 0 <= i < |d| ==> IsDigit(d[i]) || d[i] == '_'
  {
    if |d| == 0 then 0
    else if d[|d| - 1] == '_' then DigitsValue(d[..|d| - 1])
    else DigitsValue(d[..|d| - 1]) * 10 + DigitValue(d[|d| - 1])
  }

  /**
    `int(s)`: `None` where Python raises `ValueError`. The digits may be
    surrounded by the whitespace `int()` skips (`IntSpaces`), which leaves out
    the separators U+001C..U+001F that `str.strip()` would remove.
   */
  function ParseInt(s: string): Option<int> {
    var t := Strip(IntSpaces, s);
    if |t| > 0 && (t[0] == '+' || t[0] == '-') then
      var body := t[1..];
      if WellFormedDigits(body) then
        Some(if t[0] == '-' then -(DigitsValue(body) as int) else DigitsValue(body))
      else None
    else if WellFormedDigits(t) then Some(DigitsValue(t))
    else None
  }

  /** `_get_int(value, default)`: total, the default standing in for `None` and for malformed text. */
  function GetInt(value: Option<string>, default: int): (r: int)
    ensures value.None? ==> r == default
    // The `ValueError` of `int()` is caught: rejected text gives the default.
    ensures value.Some? && ParseInt(value.value).None? ==> r == default
    ensures value.Some? && ParseInt(value.value).Some? ==> r == ParseInt(value.value).value
  {
    match value
    case None => default
    case Some(v) =>
      match ParseInt(v)
      case None => default
      case Some(n) => n
  }

  /** Decimal digits of `n`, most significant first, as `str(n)` writes them. */
  function NatToDecimal(n: nat): (r: string)
    ensures |r| > 0
    ensures forall i :: 0 <= i < |r| ==> IsDigit(r[i])
    ensures DigitsValue(r) == n
  {
    if n < 10 then [(n + '0' as int) as char]
    else
      var r := NatToDecimal(n / 10) + [(n % 10 + '0' as int) as char];
      assert r[..|r| - 1] == NatToDecimal(n / 10);
      r
  }

  /** `str(n)` for an integer. */
  function IntToDecimal(n: int): (r: string)
    ensures |r| > 0 && Stripped(IntSpaces, r)
  {
    if n < 0 then "-" + NatToDecimal(-n) else NatToDecimal(n)
  }

  /** `_get_int` reads back every integer that `str()` writes, whatever the default. */
  lemma GetIntReadsDecimal(n: int, default: int)
    ensures GetInt(Some(IntToDecimal(n)), default) == n
  {
    var s := IntToDecimal(n);
    StripOfStripped(IntSpaces, s);
    if n < 0 {
      assert s[1..] == NatToDecimal(-n);
    }
  }

  /** Surrounding whitespace never changes what `int()` reads. */
  lemma GetIntIgnoresPadding(pre: string, s: string, suf: string, default: int)
    requires AllSpace(IntSpaces, pre) && AllSpace(IntSpaces, suf)
    ensures GetInt(Some(pre + s + suf), default) == GetInt(Some(s), default)
  {
    StripIgnoresPadding(IntSpaces, pre, s, suf);
  }

  /** Every `str()` of a natural number is a well-formed digit run. */
  lemma DecimalWellFormed(n: nat)
    ensures WellFormedDigits(NatToDecimal(n))
  {
  }

  /** A leading sign is accepted: `int("+42") == 42`, `int("-42") == -42`. */
  lemma GetIntAcceptsSign(sign: char, n: nat, default: int)
    requires sign == '+' || sign == '-'
    ensures GetInt(Some([sign] + NatToDecimal(n)), default) == if sign == '-' then -(n as int) else n
  {
    var d := NatToDecimal(n);
    var s := [sign] + d;
    DecimalWellFormed(n);
    assert s[|s| - 1] == d[|d| - 1];
    StripOfStripped(IntSpaces, s);
    assert s[1..] == d;
  }

  /** A sign and surrounding whitespace together: `int(" +42 ") == 42`. */
  lemma GetIntAcceptsSignAndPadding(pre: string, n: nat, suf: string, default: int)
    requires AllSpace(IntSpaces, pre) && AllSpace(IntSpaces, suf)
    ensures GetInt(Some(pre + "+" + NatToDecimal(n) + suf), default) == n
    ensures GetInt(Some(pre + "-" + NatToDecimal(n) + suf), default) == -(n as int)
  {
    var d := NatToDecimal(n);
    assert pre + "+" + d + suf == pre + (['+'] + d) + suf;
    assert pre + "-" + d + suf == pre + (['-'] + d) + suf;
    GetIntIgnoresPadding(pre, ['+'] + d, suf, default);
    GetIntIgnoresPadding(pre, ['-'] + d, suf, default);
    GetIntAcceptsSign('+', n, default);
    GetIntAcceptsSign('-', n, default);
  }

  /** One more character of a digit run: an underscore adds nothing, a digit shifts the value. */
  lemma DigitsValueSnoc(d: string, c: char)
    requires forall i :: 0 <= i < |d| ==> IsDigit(d[i]) || d[i] == '_'
    requires IsDigit(c) || c == '_'
    ensures DigitsValue(d + [c]) == if c == '_' then DigitsValue(d) else DigitsValue(d) * 10 + DigitValue(c)
  {
    assert (d + [c])[..|d|] == d;
  }

  /** Digit groups: `int("1_000") == 1000`. */
  lemma GetIntDigitGroups(default: int)
    ensures GetInt(Some("1_000"), default) == 1000
  {
    StripOfStripped(IntSpaces, "1_000");
    assert DigitsValue("1") == 1 by { assert "1" == [] + ['1']; DigitsValueSnoc([], '1'); }
    assert DigitsValue("1_") == 1 by { assert "1_" == "1" + ['_']; DigitsValueSnoc("1", '_'); }
    assert DigitsValue("1_0") == 10 by { assert "1_0" == "1_" + ['0']; DigitsValueSnoc("1_", '0'); }
    assert DigitsValue("1_00") == 100 by { assert "1_00" == "1_0" + ['0']; DigitsValueSnoc("1_0", '0'); }
    assert DigitsValue("1_000") == 1000 by { assert "1_000" == "1_00" + ['0']; DigitsValueSnoc("1_00", '0'); }
  }

  /** A doubled, leading or trailing underscore is malformed: `"1__000"`, `"_1"`, `"1_"`. */
  lemma GetIntMisplacedUnderscore(default: int)
    ensures GetInt(Some("1__000"), default) == default
    ensures GetInt(Some("_1"), default) == default
    ensures GetInt(Some("1_"), default) == default
  {
    StripOfStripped(IntSpaces, "1__000");
    StripOfStripped(IntSpaces, "_1");
    StripOfStripped(IntSpaces, "1_");
    assert !WellFormedDigits("1__000") by { assert "1__000"[1] == '_' && "1__000"[2] == '_'; }
  }

  /** Text without digits gives the default: empty, a lone sign, a sign parted from its digits. */
  lemma GetIntNoDigits(default: int)
    ensures GetInt(Some(""), default) == default
    ensures GetInt(Some("+"), default) == default
    ensures GetInt(Some("- 5"), default) == default
  {
    StripOfStripped(IntSpaces, "");
    StripOfStripped(IntSpaces, "+");
    StripOfStripped(IntSpaces, "- 5");
    assert "- 5"[1..] == " 5";
  }

  /** Only base-10 integers are read: hexadecimal and fractions give the default. */
  lemma GetIntNotDecimalInteger(default: int)
    ensures GetInt(Some("0x10"), default) == default
    ensures GetInt(Some("2.5"), default) == default
  {
    StripOfStripped(IntSpaces, "0x10");
    StripOfStripped(IntSpaces, "2.5");
    assert !WellFormedDigits("0x10") by { assert "0x10"[1] == 'x'; }
    assert !WellFormedDigits("2.5") by { assert "2.5"[1] == '.'; }
  }

  /**
    `int()` does not skip the separators U+001C..U+001F that `str.strip()`
    removes: `_get_int("\x1c5", 7)` is 7, although the text strips to `"5"`.
   */
  lemma GetIntKeepsSeparators()
    ensures Strip(StrSpaces, "\U{001C}5") == "5"
    ensures GetInt(Some("\U{001C}5"), 7) == 7
  {
    assert "\U{001C}5" == "\U{001C}" + "5" + "";
    StripUnique(StrSpaces, "\U{001C}", "5", "");
    StripOfStripped(IntSpaces, "\U{001C}5");
    assert !WellFormedDigits("\U{001C}5") by { assert !IsDigit("\U{001C}5"[0]); }
  }

  // ---------------------------------------------------------------------
  // `_get_csv`: a comma-separated list of origins, or the wildcard.
  // ---------------------------------------------------------------------

  const DefaultOrigin: string := "http://localhost:3000"

  /** What `_get_csv` returns: the string `"*"` or a list of strings. */
  datatype Origins = Wildcard | List(items: seq<string>)

  /** An item of a parsed list: non-empty, comma-free, no surrounding whitespace. */
  predicate CleanItem(s: string) {
    s != "" && Stripped(StrSpaces, s) && ',' !in s
  }

  /** `[v.strip() for v in items]`. */
  function StripEach(items: seq<string>): (r: seq<string>)
    ensures |r| == |items|
    ensures forall i :: 0 <= i < |r| ==> r[i] == Strip(StrSpaces, items[i])
  {
    if |items| == 0 then [] else [Strip(StrSpaces, items[0])] + StripEach(items[1..])
  }

  /** `[v for v in items if v]`: every non-empty item is kept, and nothing else. */
  function NonEmpty(items: seq<string>): (r: seq<string>)
    ensures forall i :: 0 <= i < |r| ==> r[i] != "" && r[i] in items
    ensures forall x :: x in r <==> x in items && x != ""
    ensures |r| <= |items|
  {
    if |items| == 0 then []
    else if items[0] == "" then NonEmpty(items[1..])
    else [items[0]] + NonEmpty(items[1..])
  }

  /** Filtering works piece by piece, so the kept items stay in their order. */
  lemma {:induction false} NonEmptyAppend(a: seq<string>, b: seq<string>)
    ensures NonEmpty(a + b) == NonEmpty(a) + NonEmpty(b)
  {
    if a == [] {
      assert a + b == b;
    } else {
      assert (a + b)[0] == a[0];
      assert (a + b)[1..] == a[1..] + b;
      NonEmptyAppend(a[1..], b);
    }
  }

  /** `_get_csv(value)`. */
  function GetCsv(value: Option<string>): (r: Origins)
    ensures value.None? ==> r == List([DefaultOrigin])
    ensures value.Some? ==> (r.Wildcard? <==> Strip(StrSpaces, value.value) == "*")
    ensures r.List? ==> forall i :: 0 <= i < |r.items| ==> CleanItem(r.items[i])
  {
    match value
    case None =>
      assert DefaultOrigin[0] == 'h' && DefaultOrigin[|DefaultOrigin| - 1] == '0';
      List([DefaultOrigin])
    case Some(v) =>
      var cleaned := Strip(StrSpaces, v);
      if cleaned == "*" then Wildcard
      else
        var pieces := Split(cleaned, ',');
        var stripped := StripEach(pieces);
        StripEachCommaFree(pieces);
        NonEmptyKeepsClean(stripped);
        List(NonEmpty(stripped))
  }

  /** Stripping comma-free pieces leaves them comma-free. */
  lemma StripEachCommaFree(items: seq<string>)
    requires forall i :: 0 <= i < |items| ==> ',' !in items[i]
    ensures forall i :: 0 <= i < |items| ==> ',' !in StripEach(items)[i]
  {
    forall i | 0 <= i < |items| ensures ',' !in StripEach(items)[i] {
      StripIsInfix(items[i]);
    }
  }

  /** Dropping the empty strings from stripped, comma-free items leaves clean items. */
  lemma {:induction false} NonEmptyKeepsClean(items: seq<string>)
    requires forall i :: 0 <= i < |items| ==> Stripped(StrSpaces, items[i]) && ',' !in items[i]
    ensures forall i :: 0 <= i < |NonEmpty(items)| ==> CleanItem(NonEmpty(items)[i])
  {
    if |items| > 0 {
      var tail := items[1..];
      assert forall i :: 0 <= i < |tail| ==> tail[i] == items[i + 1];
      NonEmptyKeepsClean(tail);
    }
  }

  /** `strip()` removes characters but never adds one. */
  lemma StripIsInfix(s: string)
    ensures forall c :: c in Strip(StrSpaces, s) ==> c in s
  {
    var pre, suf := StripSplits(StrSpaces, s);
    forall c | c in Strip(StrSpaces, s) ensures c in s {
      var i :| 0 <= i < |Strip(StrSpaces, s)| && Strip(StrSpaces, s)[i] == c;
      assert s[|pre| + i] == c;
    }
  }

  /** Writing clean items joined by commas and reading them back gives the same list, in order. */
  lemma GetCsvReadsJoined(items: seq<string>)
    requires forall i :: 0 <= i < |items| ==> CleanItem(items[i])
    requires items != ["*"]
    ensures GetCsv(Some(Join(items, ','))) == List(items)
  {
    var s := Join(items, ',');
    JoinedStripped(items);
    StripOfStripped(StrSpaces, s);
    JoinedNotWildcard(items);
    GetCsvUnfold(s);
    if items == [] {
      assert Split(s, ',') == [""];
    } else {
      SplitJoin(items, ',');
      StripEachClean(items);
      NonEmptyClean(items);
    }
  }

  lemma JoinedStripped(items: seq<string>)
    requires forall i :: 0 <= i < |items| ==> CleanItem(items[i])
    ensures Stripped(StrSpaces, Join(items, ','))
  {
    if items != [] {
      JoinFirst(items, ',');
      JoinLast(items, ',');
    }
  }

  lemma JoinedNotWildcard(items: seq<string>)
    requires forall i :: 0 <= i < |items| ==> CleanItem(items[i])
    requires items != ["*"]
    ensures Join(items, ',') != "*"
  {
    if |items| > 1 {
      var s := Join(items, ',');
      assert s == items[0] + [','] + Join(items[1..], ',');
      assert s[|items[0]|] == ',';
    }
  }

  /**
    For any value other than the wildcard, the list holds each comma piece of
    the value, stripped, with the blank ones dropped, in the original order.
   */
  lemma GetCsvPieces(v: string)
    requires Strip(StrSpaces, v) != "*"
    ensures GetCsv(Some(v)) == List(NonEmpty(StripEach(Split(v, ','))))
  {
    var pre, suf := StripSplits(StrSpaces, v);
    StripPiecesIgnoresPadding(pre, Strip(StrSpaces, v), suf);
    GetCsvUnfold(v);
  }

  /** Whitespace around the whole value only pads the first and last pieces, and stripping removes it again. */
  lemma StripPiecesIgnoresPadding(pre: string, t: string, suf: string)
    requires AllSpace(StrSpaces, pre) && AllSpace(StrSpaces, suf)
    ensures StripEach(Split(pre + t + suf, ',')) == StripEach(Split(t, ','))
  {
    var p := Split(t, ',');
    var q := PaddedPieces(pre, t, suf);
    var a := StripEach(q);
    var b := StripEach(p);
    forall i | 0 <= i < |p| ensures a[i] == b[i] {
      PaddedPieceStrips(pre, p, q, suf, i);
    }
    assert a == b;
  }

  lemma PaddedPieceStrips(pre: string, p: seq<string>, q: seq<string>, suf: string, i: nat)
    requires AllSpace(StrSpaces, pre) && AllSpace(StrSpaces, suf)
    requires |q| == |p| && i < |p|
    requires |q| == 1 ==> q[0] == pre + p[0] + suf
    requires |q| > 1 ==> q[0] == pre + p[0]
    requires |q| > 1 ==> q[|q| - 1] == p[|q| - 1] + suf
    requires forall j :: 0 < j < |q| - 1 ==> q[j] == p[j]
    ensures Strip(StrSpaces, q[i]) == Strip(StrSpaces, p[i])
  {
    var n := |p|;
    if n == 1 {
      StripIgnoresPadding(StrSpaces, pre, p[0], suf);
    } else if i == 0 {
      assert pre + p[0] + "" == q[0];
      StripIgnoresPadding(StrSpaces, pre, p[0], "");
    } else if i == n - 1 {
      assert "" + p[n - 1] + suf == q[i];
      StripIgnoresPadding(StrSpaces, "", p[n - 1], suf);
    }
  }

  /** The comma pieces of a padded value: the padding joins the first and the last piece. */
  lemma PaddedPieces(pre: string, t: string, suf: string) returns (q: seq<string>)
    requires AllSpace(StrSpaces, pre) && AllSpace(StrSpaces, suf)
    ensures q == Split(pre + t + suf, ',')
    ensures |q| == |Split(t, ',')|
    ensures |q| == 1 ==> q[0] == pre + Split(t, ',')[0] + suf
    ensures |q| > 1 ==> q[0] == pre + Split(t, ',')[0]
    ensures |q| > 1 ==> q[|q| - 1] == Split(t, ',')[|q| - 1] + suf
    ensures forall i :: 0 < i < |q| - 1 ==> q[i] == Split(t, ',')[i]
  {
    var p := Split(t, ',');
    var n := |p|;
    var p1 := p[..n - 1] + [p[n - 1] + suf];
    JoinExtendLast(p, suf, ',');
    q := [pre + p1[0]] + p1[1..];
    JoinExtendFirst(p1, pre, ',');
    assert pre + t + suf == pre + (t + suf);
    CommaNotSpace(pre);
    CommaNotSpace(suf);
    assert forall i :: 0 <= i < |q| ==> ',' !in q[i] by {
      forall i | 0 <= i < |q| ensures ',' !in q[i] {
        if i > 0 { assert q[i] == p1[i]; }
        if i < n - 1 { assert p1[i] == p[i]; }
      }
    }
    SplitJoin(q, ',');
  }

  lemma CommaNotSpace(s: string)
    requires AllSpace(StrSpaces, s)
    ensures ',' !in s
  {
  }

  lemma GetCsvUnfold(v: string)
    requires Strip(StrSpaces, v) != "*"
    ensures GetCsv(Some(v)) == List(NonEmpty(StripEach(Split(Strip(StrSpaces, v), ','))))
  {
  }

  /** A join starts where its first piece starts. */
  lemma JoinFirst(items: seq<string>, sep: char)
    requires |items| > 0 && items[0] != ""
    ensures |Join(items, sep)| > 0 && Join(items, sep)[0] == items[0][0]
  {
    if |items| > 1 {
      assert Join(items, sep) == items[0] + ([sep] + Join(items[1..], sep));
    }
  }

  /** A join ends where its last piece ends. */
  lemma {:induction false} JoinLast(items: seq<string>, sep: char)
    requires |items| > 0 && items[|items| - 1] != ""
    ensures |Join(items, sep)| > 0
    ensures Join(items, sep)[|Join(items, sep)| - 1] == items[|items| - 1][|items[|items| - 1]| - 1]
  {
    if |items| > 1 {
      var tail := items[1..];
      assert tail[|tail| - 1] == items[|items| - 1];
      JoinLast(tail, sep);
      var rest := Join(tail, sep);
      assert Join(items, sep) == (items[0] + [sep]) + rest;
    }
  }

  lemma {:induction false} StripEachClean(items: seq<string>)
    requires forall i :: 0 <= i < |items| ==> CleanItem(items[i])
    ensures StripEach(items) == items
  {
    if |items| > 0 {
      StripOfStripped(StrSpaces, items[0]);
      StripEachClean(items[1..]);
    }
  }

  lemma {:induction false} NonEmptyClean(items: seq<string>)
    requires forall i :: 0 <= i < |items| ==> items[i] != ""
    ensures NonEmpty(items) == items
  {
    if |items| > 0 {
      NonEmptyClean(items[1..]);
    }
  }

  /** Blank entries are dropped and entries are stripped: `" a , ,b,"` reads as `["a", "b"]`. */
  lemma GetCsvDropsBlanks()
    ensures GetCsv(Some(" a , ,b,")) == List(["a", "b"])
  {
    var v := " a , ,b,";
    BlanksExampleSplit();
    BlanksExampleStripEach();
    BlanksExampleFilter();
    GetCsvUnfold(v);
  }

  lemma BlanksExampleSplit()
    ensures Strip(StrSpaces, " a , ,b,") == "a , ,b,"
    ensures Split("a , ,b,", ',') == ["a ", " ", "b", ""]
  {
    assert " a , ,b," == " " + "a , ,b," + "";
    StripUnique(StrSpaces, " ", "a , ,b,", "");
    BlanksExampleJoin();
    SplitJoin(["a ", " ", "b", ""], ',');
  }

  lemma BlanksExampleJoin()
    ensures Join(["a ", " ", "b", ""], ',') == "a , ,b,"
  {
    var x := ["a ", " ", "b", ""];
    assert Join(x[3..], ',') == "";
    assert Join(x[2..], ',') == "b,";
    assert Join(x[1..], ',') == " ,b,";
  }

  lemma BlanksExampleStrip()
    ensures Strip(StrSpaces, "a ") == "a" && Strip(StrSpaces, " ") == "" && Strip(StrSpaces, "b") == "b" && Strip(StrSpaces, "") == ""
  {
    assert "a " == "" + "a" + " ";
    StripUnique(StrSpaces, "", "a", " ");
    assert " " == " " + "" + "";
    StripUnique(StrSpaces, " ", "", "");
    StripOfStripped(StrSpaces, "b");
    StripOfStripped(StrSpaces, "");
  }

  lemma BlanksExampleStripEach()
    ensures StripEach(["a ", " ", "b", ""]) == ["a", "", "b", ""]
  {
    BlanksExampleStrip();
    var r := StripEach(["a ", " ", "b", ""]);
    assert r[0] == "a" && r[1] == "" && r[2] == "b" && r[3] == "";
  }

  lemma BlanksExampleFilter()
    ensures NonEmpty(["a", "", "b", ""]) == ["a", "b"]
  {
    var x := ["a", "", "b", ""];
    assert x[1..] == ["", "b", ""];
    assert x[1..][1..] == ["b", ""];
    assert x[1..][1..][1..] == [""];
  }

  /** A value that strips to `"*"` is the wildcard, not a list. */
  lemma GetCsvWildcard()
    ensures GetCsv(Some(" * ")) == Wildcard
  {
    assert " * " == " " + "*" + " ";
    StripUnique(StrSpaces, " ", "*", " ");
  }

  /** An empty value gives an empty list, not the default origin. */
  lemma GetCsvEmpty()
    ensures GetCsv(Some("")) == List([])
  {
    StripOfStripped(StrSpaces, "");
    GetCsvUnfold("");
  }

  // ---------------------------------------------------------------------
  // `load_config`: settings computed from the environment.
  // ---------------------------------------------------------------------

  /** The process environment, as `os.getenv` sees it. */
  type Env = map<string, string>

  function Getenv(env: Env, name: string): (r: Option<string>)
    ensures r.Some? <==> name in env
    ensures r.Some? ==> r.value == env[name]
  {
    if name in env then Some(env[name]) else None
  }

  /**
    Python truthiness of what `os.getenv` returns: present and non-empty.
    (The chat payload values have their own `Chat.Truthy`.)
   */
  predicate Truthy(v: Option<string>) {
    v.Some? && v.value != ""
  }

  /** `a or b` on optional strings. */
  function Or(a: Option<string>, b: Option<string>): (r: Option<string>)
    ensures Truthy(a) ==> r == a
    ensures !Truthy(a) ==> r == b
    ensures r == a || r == b
    // The result is truthy exactly when either operand is.
    ensures Truthy(r) <==> Truthy(a) || Truthy(b)
  {
    if Truthy(a) then a else b
  }

  /** The largest magnitude `timedelta(days=...)` accepts before raising `OverflowError`. */
  const MaxTimedeltaDays: int := 999999999

  /** The exceptions `load_config` can raise. */
  datatype ConfigError =
    | SecretKeyRequired     // RuntimeError: SECRET_KEY is required ...
    | JwtSecretKeyRequired  // RuntimeError: JWT_SECRET_KEY is required ...
    | TokenLifetimeOverflow // OverflowError from timedelta(days=...)

  /** The dictionary `load_config` returns. */
  datatype Settings = Settings(
    env: string,
    debug: bool,
    secretKey: string,
    jwtSecretKey: string,
    databaseUri: string,
    trackModifications: bool,
    maxContentLength: int,
    accessTokenDays: int,
    corsOrigins: Origins,
    socketioCorsOrigins: Origins,
    trustProxyHeaders: bool)

  /** `APP_ENV or FLASK_ENV or "development"`. */
  function EnvName(env: Env): (r: string)
    ensures r != ""
    ensures r == if Truthy(Getenv(env, "APP_ENV")) then env["APP_ENV"]
      else if Truthy(Getenv(env, "FLASK_ENV")) then env["FLASK_ENV"]
      else "development"
  {
    var named := Or(Getenv(env, "APP_ENV"), Getenv(env, "FLASK_ENV"));
    if Truthy(named) then named.value else "development"
  }

  /**
    `load_config(instance_path=...)`. The random secrets `os.urandom(32).hex()`
    would produce are the parameters `generatedSecret` (for SECRET_KEY) and
    `generatedJwtSecret` (for JWT_SECRET_KEY); `dbPath` is the POSIX form of
    `Path(instance_path) / "app.db"`.
   */
  function LoadConfig(env: Env, dbPath: string, generatedSecret: string, generatedJwtSecret: string)
    : (r: Result<Settings, ConfigError>)
    // Loading succeeds exactly when a secret is there or debug is on, and the token lifetime fits `timedelta`.
    ensures r.Success? <==>
      && (Truthy(Getenv(env, "SECRET_KEY")) || GetBool(Getenv(env, "FLASK_DEBUG"), EnvName(env) == "development"))
      && -MaxTimedeltaDays <= GetInt(Getenv(env, "JWT_ACCESS_TOKEN_DAYS"), 7) <= MaxTimedeltaDays
    ensures r.Failure? && Truthy(Getenv(env, "SECRET_KEY")) ==> r.error == TokenLifetimeOverflow
    ensures r.Success? ==> r.value.env == EnvName(env)
    ensures r.Success? ==> r.value.debug == GetBool(Getenv(env, "FLASK_DEBUG"), EnvName(env) == "development")
    ensures "FLASK_DEBUG" !in env ==> (r.Success? ==> (r.value.debug <==> EnvName(env) == "development"))
    // With debug off a missing secret is an error, never a generated value.
    ensures !Truthy(Getenv(env, "SECRET_KEY")) && !GetBool(Getenv(env, "FLASK_DEBUG"), EnvName(env) == "development")
      ==> r == Failure(SecretKeyRequired)
    ensures r.Success? && !r.value.debug ==> r.value.secretKey == env["SECRET_KEY"]
    ensures r.Success? && Truthy(Getenv(env, "SECRET_KEY")) ==> r.value.secretKey == env["SECRET_KEY"]
    ensures r.Success? && !Truthy(Getenv(env, "SECRET_KEY")) ==> r.value.secretKey == generatedSecret
    // JWT_SECRET_KEY falls back to SECRET_KEY, and only then to a generated value.
    ensures r.Success? ==> (r.value.jwtSecretKey ==
      if Truthy(Getenv(env, "JWT_SECRET_KEY")) then env["JWT_SECRET_KEY"]
      else if Truthy(Getenv(env, "SECRET_KEY")) then env["SECRET_KEY"]
      else generatedJwtSecret)
    ensures r.Success? ==> r.value.maxContentLength == GetInt(Getenv(env, "MAX_UPLOAD_MB"), 5) * 1024 * 1024
    ensures r.Success? ==> r.value.accessTokenDays == GetInt(Getenv(env, "JWT_ACCESS_TOKEN_DAYS"), 7)
    ensures r.Success? ==> -MaxTimedeltaDays <= r.value.accessTokenDays <= MaxTimedeltaDays
    ensures r.Success? ==> r.value.databaseUri == "sqlite:///" + dbPath && !r.value.trackModifications
    ensures r.Success? ==> r.value.corsOrigins == GetCsv(Getenv(env, "CORS_ORIGINS"))
    ensures r.Success? ==> (r.value.socketioCorsOrigins ==
      GetCsv(Or(Getenv(env, "SOCKETIO_CORS_ORIGINS"), Getenv(env, "CORS_ORIGINS"))))
    ensures r.Success? ==> r.value.trustProxyHeaders == GetBool(Getenv(env, "TRUST_PROXY_HEADERS"), false)
  {
    var envName := EnvName(env);
    var debug := GetBool(Getenv(env, "FLASK_DEBUG"), envName == "development");
    var secretKey := Getenv(env, "SECRET_KEY");
    var jwtSecretKey := Or(Getenv(env, "JWT_SECRET_KEY"), secretKey);
    if !Truthy(secretKey) && !debug then Failure(SecretKeyRequired)
    else
      var secret := if Truthy(secretKey) then secretKey.value else generatedSecret;
      if !Truthy(jwtSecretKey) && !debug then Failure(JwtSecretKeyRequired)
      else
        var jwtSecret := if Truthy(jwtSecretKey) then jwtSecretKey.value else generatedJwtSecret;
        var maxUploadMb := GetInt(Getenv(env, "MAX_UPLOAD_MB"), 5);
        var accessTokenDays := GetInt(Getenv(env, "JWT_ACCESS_TOKEN_DAYS"), 7);
        if accessTokenDays < -MaxTimedeltaDays || accessTokenDays > MaxTimedeltaDays then
          Failure(TokenLifetimeOverflow)
        else
          Success(Settings(
            env := envName,
            debug := debug,
            secretKey := secret,
            jwtSecretKey := jwtSecret,
            databaseUri := "sqlite:///" + dbPath,
            trackModifications := false,
            maxContentLength := maxUploadMb * 1024 * 1024,
            accessTokenDays := accessTokenDays,
            corsOrigins := GetCsv(Getenv(env, "CORS_ORIGINS")),
            socketioCorsOrigins := GetCsv(Or(Getenv(env, "SOCKETIO_CORS_ORIGINS"), Getenv(env, "CORS_ORIGINS"))),
            trustProxyHeaders := GetBool(Getenv(env, "TRUST_PROXY_HEADERS"), false)))
  }

  /**
    The JWT_SECRET_KEY error is unreachable: the JWT secret falls back to
    SECRET_KEY, so it is missing only when SECRET_KEY is, and that is reported first.
   */
  lemma JwtSecretErrorUnreachable(env: Env, dbPath: string, g1: string, g2: string)
    ensures LoadConfig(env, dbPath, g1, g2) != Failure(JwtSecretKeyRequired)
  {
  }

  /** With SECRET_KEY unset in debug mode, the two secrets are generated separately. */
  lemma DebugSecretsAreGeneratedSeparately(env: Env, dbPath: string, g1: string, g2: string)
    requires "SECRET_KEY" !in env && "JWT_SECRET_KEY" !in env
    requires LoadConfig(env, dbPath, g1, g2).Success?
    ensures LoadConfig(env, dbPath, g1, g2).value.secretKey == g1
    ensures LoadConfig(env, dbPath, g1, g2).value.jwtSecretKey == g2
  {
  }

  /** The settings of an empty environment: development mode, 5 MB uploads, 7-day tokens, the local origin. */
  lemma EmptyEnvironment(dbPath: string, g1: string, g2: string)
    ensures LoadConfig(map[], dbPath, g1, g2) == Success(Settings(
      env := "development", debug := true, secretKey := g1, jwtSecretKey := g2,
      databaseUri := "sqlite:///" + dbPath, trackModifications := false,
      maxContentLength := 5242880, accessTokenDays := 7,
      corsOrigins := List([DefaultOrigin]), socketioCorsOrigins := List([DefaultOrigin]),
      trustProxyHeaders := false))
  {
  }

  /** Outside development, an unset FLASK_DEBUG means debug is off and SECRET_KEY is mandatory. */
  lemma ProductionNeedsSecret(env: Env, dbPath: string, g1: string, g2: string)
    requires "FLASK_DEBUG" !in env && "SECRET_KEY" !in env
    requires EnvName(env) != "development"
    ensures LoadConfig(env, dbPath, g1, g2) == Failure(SecretKeyRequired)
  {
  }

  /** A token lifetime beyond what `timedelta` holds is an error, not a setting, once the secret is there. */
  lemma TokenLifetimeOverflows(env: Env, dbPath: string, g1: string, g2: string)
    requires Truthy(Getenv(env, "SECRET_KEY"))
    requires GetInt(Getenv(env, "JWT_ACCESS_TOKEN_DAYS"), 7) > MaxTimedeltaDays
    ensures LoadConfig(env, dbPath, g1, g2) == Failure(TokenLifetimeOverflow)
  {
  }
}
