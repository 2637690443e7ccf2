/**
 * String helpers shared by every script: Python's zero-padded integer
 * formatting (`f"{n:04d}"`), ASCII lower-casing, `str.endswith`,
 * `PurePath.suffix`, and the facts that make the generated file names
 * collision-free.
 */
module Text {

  predicate IsDigit(c: char) { '0' <= c <= '9' }

  predicate AllDigits(s: string) { forall i :: 0 <= i < |s| ==> IsDigit(s[i]) }

  predicate NoDigits(s: string) { forall i :: 0 <= i < |s| ==> !IsDigit(s[i]) }

  function DigitChar(d: nat): (c: char)
    requires d < 10
    ensures IsDigit(c) && c as int - '0' as int == d
  {
    ('0' as int + d) as char
  }

  function DigitValue(c: char): (d: nat)
    requires IsDigit(c)
    ensures d < 10
  {
    c as int - '0' as int
  }

  /** The decimal digits of `n`, most significant first, without leading zeros. */
  function Digits(n: nat): string
    decreases n
  {
    if n < 10 then [DigitChar(n)] else Digits(n / 10) + [DigitChar(n % 10)]
  }

  function Zeros(k: nat): string { seq(k, _ => '0') }

  /** Python's `format(n, "0{width}d")` for a non-negative `n`: the digits of `n`,
      left-padded with '0' up to `width` characters, never truncated. */
  function Pad(n: nat, width: nat): string
  {
    var d := Digits(n);
    if |d| < width then Zeros(width - |d|) + d else d
  }

  /** The number a digit string denotes (leading zeros allowed). */
  function Value(s: string): nat
    requires AllDigits(s)
  {
    if s == [] then 0 else Value(s[..|s| - 1]) * 10 + DigitValue(s[|s| - 1])
  }

  function Pow10(k: nat): (p: nat)
    ensures p >= 1
  {
    if k == 0 then 1 else 10 * Pow10(k - 1)
  }

  lemma {:induction false} DigitsShape(n: nat)
    ensures |Digits(n)| >= 1 && AllDigits(Digits(n))
    ensures Value(Digits(n)) == n
    decreases n
  {
    if n >= 10 {
      DigitsShape(n / 10);
      var d := Digits(n);
      assert d[..|d| - 1] == Digits(n / 10);
    }
  }

  lemma {:induction false} DigitsLength(n: nat, w: nat)
    requires w >= 1
    ensures |Digits(n)| <= w <==> n < Pow10(w)
    decreases n
  {
    if n >= 10 {
      if w > 1 {
        DigitsLength(n / 10, w - 1);
        assert n < Pow10(w) <==> n / 10 < Pow10(w - 1);
      } else {
        assert |Digits(n)| >= 2;
      }
    }
  }

  lemma {:induction false} ValueZerosPrefix(k: nat, s: string)
    requires AllDigits(s)
    ensures AllDigits(Zeros(k) + s) && Value(Zeros(k) + s) == Value(s)
    decreases |s|
  {
    var t := Zeros(k) + s;
    if s == [] {
      assert t == Zeros(k);
      ZerosValue(k);
    } else {
      assert t[..|t| - 1] == Zeros(k) + s[..|s| - 1];
      ValueZerosPrefix(k, s[..|s| - 1]);
    }
  }

  lemma {:induction false} ZerosValue(k: nat)
    ensures AllDigits(Zeros(k)) && Value(Zeros(k)) == 0
  {
    if k > 0 {
      assert Zeros(k)[..k - 1] == Zeros(k - 1);
      ZerosValue(k - 1);
    }
  }

  /** Round trip: reading back a zero-padded number gives the number. */
  lemma PadRoundTrip(n: nat, width: nat)
    ensures AllDigits(Pad(n, width)) && Value(Pad(n, width)) == n
  {
    DigitsShape(n);
    if |Digits(n)| < width {
      ValueZerosPrefix(width - |Digits(n)|, Digits(n));
    }
  }

  /** A padded number has at least `width` characters, and exactly `width`
      when it is below 10^width. */
  lemma PadLength(n: nat, width: nat)
    requires width >= 1
    ensures |Pad(n, width)| >= width
    ensures |Pad(n, width)| == width <==> n < Pow10(width)
  {
    DigitsLength(n, width);
  }

  lemma PadInjective(m: nat, n: nat, width: nat)
    ensures Pad(m, width) == Pad(n, width) ==> m == n
  {
    PadRoundTrip(m, width);
    PadRoundTrip(n, width);
  }

  /** Number of leading digits of `s`. */
  function DigitRun(s: string): (r: nat)
    ensures r <= |s| && AllDigits(s[..r])
    ensures r < |s| ==> !IsDigit(s[r])
  {
    if s == [] || !IsDigit(s[0]) then 0
    else
      var r := 1 + DigitRun(s[1..]);
      assert s[..r] == [s[0]] + s[1..][..r - 1];
      r
  }

  lemma DigitRunOfBlock(d: string, e: string)
    requires AllDigits(d) && NoDigits(e)
    ensures DigitRun(d + e) == |d|
  {
    var s := d + e;
    var r := DigitRun(s);
    if |e| > 0 {
      assert s[|d|] == e[0];
    }
    assert forall j :: 0 <= j < |d| ==> s[j] == d[j];
    assert forall j :: 0 <= j < r ==> s[..r][j] == s[j];
  }

  /** The only place a pure digit block can end, when it is followed by digit-free text. */
  lemma DigitBlockSplit(d1: string, e1: string, d2: string, e2: string)
    requires AllDigits(d1) && AllDigits(d2) && NoDigits(e1) && NoDigits(e2)
    requires d1 + e1 == d2 + e2
    ensures d1 == d2 && e1 == e2
  {
    var s := d1 + e1;
    DigitRunOfBlock(d1, e1);
    DigitRunOfBlock(d2, e2);
    assert d1 == s[..|d1|] == d2;
  }

  /** A name `p + "_" + t` whose tail `t` holds no underscore splits only at its last underscore. */
  lemma LastUnderscoreSplit(p1: string, t1: string, p2: string, t2: string)
    requires '_' !in t1 && '_' !in t2
    requires p1 + "_" + t1 == p2 + "_" + t2
    ensures p1 == p2 && t1 == t2
  {
    var s := p1 + "_" + t1;
    LastUnderscoreAt(p1, t1);
    LastUnderscoreAt(p2, t2);
    assert p1 == s[..|p1|] == p2;
    assert t1 == s[|p1| + 1..] == t2;
  }

  lemma {:induction false} LastUnderscoreAt(p: string, t: string)
    requires '_' !in t
    ensures RFind(p + "_" + t, '_') == |p|
    decreases |t|
  {
    var s := p + "_" + t;
    if t != [] {
      var t' := t[..|t| - 1];
      assert s[|s| - 1] == t[|t| - 1] && s[..|s| - 1] == p + "_" + t';
      LastUnderscoreAt(p, t');
    }
  }

  lemma PadHasNoUnderscore(n: nat, width: nat)
    ensures '_' !in Pad(n, width)
  {
    PadRoundTrip(n, width);
  }

  /** The name `prefix_NNN<ext>` determines prefix, number and extension, as long as the
      extension holds neither digits nor underscores. */
  lemma NumberedNameInjective(p1: string, m: nat, e1: string, p2: string, n: nat, e2: string, width: nat)
    requires NoDigits(e1) && NoDigits(e2) && '_' !in e1 && '_' !in e2
    requires p1 + "_" + Pad(m, width) + e1 == p2 + "_" + Pad(n, width) + e2
    ensures p1 == p2 && m == n && e1 == e2
  {
    PadHasNoUnderscore(m, width);
    PadHasNoUnderscore(n, width);
    assert p1 + "_" + Pad(m, width) + e1 == p1 + "_" + (Pad(m, width) + e1);
    assert p2 + "_" + Pad(n, width) + e2 == p2 + "_" + (Pad(n, width) + e2);
    LastUnderscoreSplit(p1, Pad(m, width) + e1, p2, Pad(n, width) + e2);
    PadRoundTrip(m, width);
    PadRoundTrip(n, width);
    DigitBlockSplit(Pad(m, width), e1, Pad(n, width), e2);
    PadInjective(m, n, width);
  }

  /** `NNNN<ext>` with a digit-free extension determines the number. */
  lemma PaddedNameInjective(m: nat, n: nat, width: nat, ext: string)
    requires NoDigits(ext)
    ensures Pad(m, width) + ext == Pad(n, width) + ext ==> m == n
  {
    if Pad(m, width) + ext == Pad(n, width) + ext {
      PadRoundTrip(m, width);
      PadRoundTrip(n, width);
      DigitBlockSplit(Pad(m, width), ext, Pad(n, width), ext);
      PadInjective(m, n, width);
    }
  }

  /** Python's `str.endswith` with one suffix. */
  predicate EndsWith(s: string, suffix: string)
  {
    |suffix| <= |s| && s[|s| - |suffix|..] == suffix
  }

  /** `str.lower()` on ASCII letters; every other character is left as it is. */
  function LowerChar(c: char): (r: char)
    ensures 'A' <= c <= 'Z' ==> r as int == c as int + 32
    ensures !('A' <= c <= 'Z') ==> r == c
  {
    if 'A' <= c <= 'Z' then (c as int + 32) as char else c
  }

  function Lower(s: string): (r: string)
    ensures |r| == |s| && forall i :: 0 <= i < |s| ==> r[i] == LowerChar(s[i])
  {
    seq(|s|, i requires 0 <= i < |s| => LowerChar(s[i]))
  }

  /** Index of the last occurrence of `c` in `s`, or -1 (Python's `str.rfind`). */
  function RFind(s: string, c: char): (i: int)
    ensures -1 <= i < |s|
    ensures i >= 0 ==> s[i] == c
    ensures forall j :: i < j < |s| ==> s[j] != c
  {
    if s == [] then -1
    else if s[|s| - 1] == c then |s| - 1
    else RFind(s[..|s| - 1], c)
  }

  /** `PurePath(name).suffix`: from the last dot, unless that dot is the first
      or the last character of the name. */
  function Suffix(name: string): string
  {
    var i := RFind(name, '.');
    if 0 < i < |name| - 1 then name[i..] else ""
  }

  /** A name that ends with `ext`, where `ext` is a dot followed by dot-free text,
      has `ext` as its suffix when the stem is non-empty, and no suffix otherwise. */
  lemma SuffixOfExtension(name: string, ext: string)
    requires |ext| >= 2 && ext[0] == '.' && '.' !in ext[1..]
    requires EndsWith(name, ext)
    ensures Suffix(name) == if |name| > |ext| then ext else ""
  {
    var k := |name| - |ext|;
    assert name[k] == '.';
    forall j | k < j < |name| ensures name[j] != '.' {
      assert name[j] == ext[j - k] == ext[1..][j - k - 1];
    }
    assert RFind(name, '.') == k;
  }
}
