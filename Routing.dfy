/** The resource id of a request path (extractID in main.go): the text after
    the last "/", converted as strconv.Atoi does, or 0 when that fails. */
module Routing {
  import opened Tables

  /** The range of Go's int on the 64-bit platforms the service targets. */
  const MinInt := -0x8000_0000_0000_0000
  const MaxInt := 0x7fff_ffff_ffff_ffff

  /** The last element of strings.Split(path, "/"): the text after the last
      "/", or the whole path when it holds none. */
  function LastSegment(path: string): (r: string)
    ensures '/' !in r
    ensures |r| <= |path| && r == path[|path| - |r|..]
    ensures |r| < |path| ==> path[|path| - |r| - 1] == '/'
  {
    if path == [] then []
    else if path[|path| - 1] == '/' then []
    else
      var init := path[..|path| - 1];
      var r := LastSegment(init);
      assert init[|init| - |r|..] + [path[|path| - 1]] == path[|path| - |r| - 1..];
      r + [path[|path| - 1]]
  }

  predicate IsDigit(c: char) {
    '0' <= c <= '9'
  }

  predicate AllDigits(s: string) {
    forall i :: 0 <= i < |s| ==> IsDigit(s[i])
  }

  /** The value of a string of decimal digits. */
  function DigitsValue(s: string): nat
    requires AllDigits(s)
  {
    if s == [] then 0 else DigitsValue(s[..|s| - 1]) * 10 + (s[|s| - 1] - '0') as nat
  }

  /** strconv.Atoi: an optional "+" or "-" followed by at least one decimal
      digit and nothing else, whose value fits in an int. */
  function Atoi(s: string): (r: Option<int>)
    ensures r.Some? ==> MinInt <= r.value <= MaxInt
    ensures r.Some? ==> s != [] && (IsDigit(s[0]) || s[0] == '+' || s[0] == '-')
  {
    var negative := |s| > 0 && s[0] == '-';
    var digits := if |s| > 0 && (s[0] == '+' || s[0] == '-') then s[1..] else s;
    if digits == [] || !AllDigits(digits) then None
    else
      var v := if negative then -(DigitsValue(digits) as int) else DigitsValue(digits) as int;
      if MinInt <= v <= MaxInt then Some(v) else None
  }

  /** extractID. */
  function ExtractId(path: string): (r: int)
    ensures MinInt <= r <= MaxInt
  {
    Atoi(LastSegment(path)).GetOr(0)
  }

  /** The decimal digits of `n`, without sign or leading zeros. */
  function Show(n: nat): (r: string)
    ensures r != [] && AllDigits(r)
  {
    if n < 10 then ['0' + n as char]
    else Show(n / 10) + ['0' + (n % 10) as char]
  }

  lemma {:induction false} ShowValue(n: nat)
    ensures DigitsValue(Show(n)) == n
  {
    if n >= 10 {
      var s := Show(n);
      assert s[..|s| - 1] == Show(n / 10);
      ShowValue(n / 10);
    }
  }

  /** The whole rule of Atoi on a string of digits `d`, bare or after a
      "+" or a "-": it reads the signed value of `d` exactly when `d` is
      not empty and that value fits in an int. So a bare sign, and a
      numeral out of the int range, are not numbers. Together with
      AtoiRejects, which covers every other string, this decides every
      input. */
  lemma AtoiDigits(d: string)
    requires AllDigits(d)
    ensures Atoi(d) == if d != [] && DigitsValue(d) <= MaxInt then Some(DigitsValue(d) as int) else None
    ensures Atoi("+" + d) == if d != [] && DigitsValue(d) <= MaxInt then Some(DigitsValue(d) as int) else None
    ensures Atoi("-" + d) == if d != [] && DigitsValue(d) <= -MinInt then Some(-(DigitsValue(d) as int)) else None
  {
    assert ("+" + d)[1..] == d;
    assert ("-" + d)[1..] == d;
    if d != [] {
      assert IsDigit(d[0]);
    }
  }

  /** Atoi reads back the rendering of every int, unsigned, with "+" or
      with "-", and refuses the rendering of a number beyond the int
      range. */
  lemma AtoiShow(n: nat)
    ensures Atoi(Show(n)) == if n <= MaxInt then Some(n) else None
    ensures Atoi("+" + Show(n)) == if n <= MaxInt then Some(n) else None
    ensures Atoi("-" + Show(n)) == if n <= -MinInt then Some(-(n as int)) else None
  {
    var s := Show(n);
    ShowValue(n);
    AtoiDigits(s);
    assert DigitsValue(s) == n && s != [];
  }

  /** Zeros in front of a numeral do not change its value, so "007" is 7. */
  lemma AtoiLeadingZeros(zeros: string, n: nat)
    requires forall i :: 0 <= i < |zeros| ==> zeros[i] == '0'
    requires n <= MaxInt
    ensures Atoi(zeros + Show(n)) == Some(n)
  {
    ShowValue(n);
    LeadingZerosValue(zeros, Show(n));
    AtoiDigits(zeros + Show(n));
  }

  lemma {:induction false} LeadingZerosValue(zeros: string, d: string)
    requires forall i :: 0 <= i < |zeros| ==> zeros[i] == '0'
    requires AllDigits(d)
    ensures AllDigits(zeros + d) && DigitsValue(zeros + d) == DigitsValue(d)
  {
    if d == [] {
      assert zeros + d == zeros;
      ZerosValue(zeros);
    } else {
      var s := zeros + d;
      assert s[..|s| - 1] == zeros + d[..|d| - 1];
      LeadingZerosValue(zeros, d[..|d| - 1]);
    }
  }

  lemma {:induction false} ZerosValue(zeros: string)
    requires forall i :: 0 <= i < |zeros| ==> zeros[i] == '0'
    ensures AllDigits(zeros) && DigitsValue(zeros) == 0
  {
    if zeros != [] {
      ZerosValue(zeros[..|zeros| - 1]);
    }
  }

  /** A path ending in "/<digits of n>" gives n, and one ending in
      "/-<digits of n>" gives -n (so "/x/-3" gives -3); beyond the int
      range the conversion fails and the id is 0. */
  lemma ExtractIdShow(prefix: string, n: nat)
    ensures ExtractId(prefix + "/" + Show(n)) == if n <= MaxInt then n else 0
    ensures ExtractId(prefix + "/" + ("-" + Show(n))) == if n <= -MinInt then -(n as int) else 0
  {
    var s := Show(n);
    var m := "-" + s;
    assert '/' !in m by {
      assert forall i :: 0 <= i < |s| ==> IsDigit(s[i]);
    }
    assert '/' !in s by {
      assert m[1..] == s;
    }
    ExtractIdLastSegmentOnly(prefix, s);
    ExtractIdLastSegmentOnly(prefix, m);
    NoSlashWholePath(s);
    NoSlashWholePath(m);
    AtoiShow(n);
  }

  /** The last segment of `a + "/" + b` is that of `b`. */
  lemma {:induction false} SegmentAfterSlash(a: string, b: string)
    ensures LastSegment(a + "/" + b) == LastSegment(b)
  {
    if b == [] {
      assert a + "/" + b == a + "/";
    } else {
      var p := a + "/" + b;
      assert p[..|p| - 1] == a + "/" + b[..|b| - 1];
      SegmentAfterSlash(a, b[..|b| - 1]);
    }
  }

  /** Only the text after the last "/" matters: every earlier segment is
      ignored. */
  lemma ExtractIdLastSegmentOnly(a: string, b: string)
    ensures ExtractId(a + "/" + b) == ExtractId(b)
  {
    SegmentAfterSlash(a, b);
  }

  /** A path without "/" is converted as a whole. */
  lemma {:induction false} NoSlashWholePath(path: string)
    requires '/' !in path
    ensures LastSegment(path) == path
  {
    if path != [] {
      assert path[|path| - 1] in path;
      var init := path[..|path| - 1];
      assert forall c :: c in init ==> c in path;
      NoSlashWholePath(init);
    }
  }

  /** A trailing "/" leaves an empty last segment, which gives 0. */
  lemma TrailingSlashGivesZero(path: string)
    ensures ExtractId(path + "/") == 0
  {
  }

  /** A segment with a character that is neither a digit nor a leading
      sign is not an integer, so the id is 0. */
  lemma AtoiRejects(s: string, i: nat)
    requires i < |s| && !IsDigit(s[i])
    requires i == 0 ==> s[0] != '+' && s[0] != '-'
    ensures Atoi(s) == None
  {
    if s[0] == '+' || s[0] == '-' {
      assert !IsDigit(s[1..][i - 1]);
    }
  }
}
