/**
  The few operations on Python `str` values that the configuration parsers
  and the upload check rely on: `strip()`, `lower()`, `split(sep)` and its
  inverse `sep.join(...)`.
 */
module PyStr {

  /**
    Which whitespace a trim removes. `str.strip()` removes every character
    `str.isspace()` accepts. `int()` skips a smaller set around its digits: it
    leaves the ASCII separators U+001C..U+001F in place, so they make the text
    malformed.
   */
  datatype Spaces = StrSpaces | IntSpaces

  /** Python's whitespace (`str.isspace`). */
  predicate PySpace(c: char) {
    ('\U{0009}' <= c <= '\U{000D}') || ('\U{001C}' <= c <= '\U{001F}') || c == ' '
    || c == '\U{0085}' || c == '\U{00A0}' || c == '\U{1680}'
    || ('\U{2000}' <= c <= '\U{200A}') || c == '\U{2028}' || c == '\U{2029}'
    || c == '\U{202F}' || c == '\U{205F}' || c == '\U{3000}'
  }

  /** The whitespace of the set `k`. */
  predicate IsSpace(k: Spaces, c: char) {
    PySpace(c) && !(k == IntSpaces && '\U{001C}' <= c <= '\U{001F}')
  }

  predicate AllSpace(k: Spaces, s: string) {
    forall i :: 0 <= i < |s| ==> IsSpace(k, s[i])
  }

  /** True when `s` has no whitespace of `k` at either end (what a trim returns). */
  predicate Stripped(k: Spaces, s: string) {
    s == [] || (!IsSpace(k, s[0]) && !IsSpace(k, s[|s| - 1]))
  }

  /** `s.lstrip()` (for `StrSpaces`): the suffix of `s` left after its leading whitespace. */
  function TrimLeft(k: Spaces, s: string): (r: string)
    ensures |r| <= |s|
    ensures r == [] || !IsSpace(k, r[0])
  {
    if |s| > 0 && IsSpace(k, s[0]) then TrimLeft(k, s[1..]) else s
  }

  /** `s.rstrip()` (for `StrSpaces`): the prefix of `s` left before its trailing whitespace. */
  function TrimRight(k: Spaces, s: string): (r: string)
    ensures |r| <= |s|
    ensures r == [] || !IsSpace(k, r[|r| - 1])
  {
    if |s| > 0 && IsSpace(k, s[|s| - 1]) then TrimRight(k, s[..|s| - 1]) else s
  }

  /** `s.strip()` for `StrSpaces`; for `IntSpaces`, the trim `int()` applies before reading digits. */
  function Strip(k: Spaces, s: string): (r: string)
    ensures Stripped(k, r)
    ensures |r| <= |s|
  {
    var l := TrimLeft(k, s);
    TrimRightIsPrefix(k, l);
    TrimRight(k, l)
  }

  lemma {:induction false} TrimRightIsPrefix(k: Spaces, s: string)
    ensures TrimRight(k, s) == s[..|TrimRight(k, s)|]
  {
    if |s| > 0 && IsSpace(k, s[|s| - 1]) {
      TrimRightIsPrefix(k, s[..|s| - 1]);
    }
  }

  lemma {:induction false} TrimLeftPadded(k: Spaces, pre: string, t: string)
    requires AllSpace(k, pre)
    requires t == [] || !IsSpace(k, t[0])
    ensures TrimLeft(k, pre + t) == t
  {
    if pre != [] {
      assert (pre + t)[1..] == pre[1..] + t;
      TrimLeftPadded(k, pre[1..], t);
    }
  }

  lemma {:induction false} TrimRightPadded(k: Spaces, t: string, suf: string)
    requires AllSpace(k, suf)
    requires t == [] || !IsSpace(k, t[|t| - 1])
    ensures TrimRight(k, t + suf) == t
  {
    if suf != [] {
      assert (t + suf)[..|t + suf| - 1] == t + suf[..|suf| - 1];
      TrimRightPadded(k, t, suf[..|suf| - 1]);
    } else {
      assert t + suf == t;
    }
  }

  /** `strip()` is determined by the text between the outer whitespace runs. */
  lemma StripUnique(k: Spaces, pre: string, t: string, suf: string)
    requires AllSpace(k, pre) && AllSpace(k, suf) && Stripped(k, t)
    ensures Strip(k, pre + t + suf) == t
  {
    if t == [] {
      assert pre + t + suf == (pre + suf) + t;
      TrimLeftPadded(k, pre + suf, t);
    } else {
      assert pre + t + suf == pre + (t + suf);
      TrimLeftPadded(k, pre, t + suf);
      TrimRightPadded(k, t, suf);
    }
  }

  lemma AllSpaceConcat(k: Spaces, a: string, b: string)
    requires AllSpace(k, a) && AllSpace(k, b)
    ensures AllSpace(k, a + b)
  {
    forall i | 0 <= i < |a + b| ensures IsSpace(k, (a + b)[i]) {
      if i < |a| { assert (a + b)[i] == a[i]; } else { assert (a + b)[i] == b[i - |a|]; }
    }
  }

  /** Every string is its stripped text surrounded by whitespace. */
  lemma {:induction false} StripSplits(k: Spaces, s: string) returns (pre: string, suf: string)
    ensures AllSpace(k, pre) && AllSpace(k, suf)
    ensures s == pre + Strip(k, s) + suf
  {
    var l := TrimLeft(k, s);
    pre := TrimLeftSplits(k, s);
    suf := TrimRightSplits(k, l);
    Regroup3(s, pre, l, TrimRight(k, l), suf);
  }

  lemma Regroup3(s: string, pre: string, l: string, t: string, suf: string)
    requires s == pre + l && l == t + suf
    ensures s == pre + t + suf
  {
  }

  /** `lstrip()` removes a run of whitespace and nothing else. */
  lemma {:induction false} TrimLeftSplits(k: Spaces, s: string) returns (pre: string)
    ensures AllSpace(k, pre) && s == pre + TrimLeft(k, s)
  {
    if |s| > 0 && IsSpace(k, s[0]) {
      var p := TrimLeftSplits(k, s[1..]);
      pre := [s[0]] + p;
      assert s == [s[0]] + s[1..];
    } else {
      pre := [];
    }
  }

  /** `rstrip()` removes a run of whitespace and nothing else. */
  lemma {:induction false} TrimRightSplits(k: Spaces, s: string) returns (suf: string)
    ensures AllSpace(k, suf) && s == TrimRight(k, s) + suf
  {
    if |s| > 0 && IsSpace(k, s[|s| - 1]) {
      var p := TrimRightSplits(k, s[..|s| - 1]);
      suf := p + [s[|s| - 1]];
      assert s == s[..|s| - 1] + [s[|s| - 1]];
    } else {
      suf := [];
    }
  }

  /** Surrounding whitespace never changes what `strip()` returns. */
  lemma StripIgnoresPadding(k: Spaces, pre: string, s: string, suf: string)
    requires AllSpace(k, pre) && AllSpace(k, suf)
    ensures Strip(k, pre + s + suf) == Strip(k, s)
  {
    var p0, s0 := StripSplits(k, s);
    var t := Strip(k, s);
    Regroup(pre, p0, t, s0, suf);
    AllSpaceConcat(k, pre, p0);
    AllSpaceConcat(k, s0, suf);
    StripUnique(k, pre + p0, t, s0 + suf);
  }

  lemma Regroup(a: string, b: string, c: string, d: string, e: string)
    ensures a + (b + c + d) + e == (a + b) + c + (d + e)
  {
  }

  lemma StripOfStripped(k: Spaces, s: string)
    requires Stripped(k, s)
    ensures Strip(k, s) == s
  {
    StripUnique(k, [], s, []);
    assert [] + s + [] == s;
  }

  /** `c.lower()` for ASCII letters; every other character is kept. */
  function LowerChar(c: char): (r: char)
    ensures 'A' <= c <= 'Z' ==> 'a' <= r <= 'z'
    ensures !('A' <= c <= 'Z') ==> r == c
  {
    if 'A' <= c <= 'Z' then (c as int - 'A' as int + 'a' as int) as char else c
  }

  /** `s.lower()`, character by character. */
  function Lower(s: string): (r: string)
    ensures |r| == |s|
    ensures forall i :: 0 <= i < |s| ==> r[i] == LowerChar(s[i])
  {
    seq(|s|, i requires 0 <= i < |s| => LowerChar(s[i]))
  }

  /** `sep.join(parts)`. */
  function Join(parts: seq<string>, sep: char): (r: string)
    ensures |parts| == 1 ==> r == parts[0]
  {
    if |parts| == 0 then ""
    else if |parts| == 1 then parts[0]
    else parts[0] + [sep] + Join(parts[1..], sep)
  }

  /** `s.split(sep)`: the pieces between the separators, `n + 1` of them for `n` separators. */
  function Split(s: string, sep: char): (r: seq<string>)
    ensures |r| >= 1
    ensures forall i :: 0 <= i < |r| ==> sep !in r[i]
    ensures Join(r, sep) == s
  {
    if |s| == 0 then [""]
    else if s[0] == sep then
      var rest := Split(s[1..], sep);
      assert [sep] + Join(rest, sep) == s;
      [""] + rest
    else
      var rest := Split(s[1..], sep);
      var r := [[s[0]] + rest[0]] + rest[1..];
      assert forall i :: 1 <= i < |r| ==> r[i] == rest[i];
      assert Join(r, sep) == [s[0]] + Join(rest, sep) by {
        if |rest| > 1 {
          assert r[1..] == rest[1..];
        }
      }
      r
  }

  /** `split` undoes `join` for separator-free pieces. */
  lemma {:induction false} SplitJoin(parts: seq<string>, sep: char)
    requires |parts| >= 1
    requires forall i :: 0 <= i < |parts| ==> sep !in parts[i]
    ensures Split(Join(parts, sep), sep) == parts
  {
    if |parts| == 1 {
      SplitOfSeparatorFree(parts[0], sep);
    } else {
      SplitJoin(parts[1..], sep);
      SplitAfterPiece(parts[0], Join(parts[1..], sep), sep);
      assert [parts[0]] + parts[1..] == parts;
    }
  }

  lemma {:induction false} SplitOfSeparatorFree(s: string, sep: char)
    requires sep !in s
    ensures Split(s, sep) == [s]
  {
    if |s| > 0 {
      SplitOfSeparatorFree(s[1..], sep);
      assert [s[0]] + s[1..] == s;
    }
  }

  lemma {:induction false} SplitAfterPiece(p: string, rest: string, sep: char)
    requires sep !in p
    ensures Split(p + [sep] + rest, sep) == [p] + Split(rest, sep)
  {
    if |p| == 0 {
      assert p + [sep] + rest == [sep] + rest;
      assert ([sep] + rest)[1..] == rest;
    } else {
      assert (p + [sep] + rest)[1..] == p[1..] + [sep] + rest;
      SplitAfterPiece(p[1..], rest, sep);
      assert [p[0]] + p[1..] == p;
    }
  }

  /** Text put before the first piece lands before the whole join. */
  lemma JoinExtendFirst(parts: seq<string>, pre: string, sep: char)
    requires |parts| >= 1
    ensures Join([pre + parts[0]] + parts[1..], sep) == pre + Join(parts, sep)
  {
    var q := [pre + parts[0]] + parts[1..];
    if |parts| > 1 {
      assert q[1..] == parts[1..];
      var rest := Join(parts[1..], sep);
      assert Join(q, sep) == (pre + parts[0]) + [sep] + rest;
      assert Join(parts, sep) == parts[0] + [sep] + rest;
    }
  }

  /** Text put after the last piece lands after the whole join. */
  lemma {:induction false} JoinExtendLast(parts: seq<string>, suf: string, sep: char)
    requires |parts| >= 1
    ensures Join(parts[..|parts| - 1] + [parts[|parts| - 1] + suf], sep) == Join(parts, sep) + suf
  {
    var n := |parts|;
    var q := parts[..n - 1] + [parts[n - 1] + suf];
    if n > 1 {
      var tail := parts[1..];
      var qt := tail[..|tail| - 1] + [tail[|tail| - 1] + suf];
      JoinExtendLast(tail, suf, sep);
      assert q[0] == parts[0];
      assert q[1..] == qt;
      assert Join(q, sep) == parts[0] + [sep] + Join(qt, sep);
      assert Join(parts, sep) == parts[0] + [sep] + Join(tail, sep);
    }
  }
}
