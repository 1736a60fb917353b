/**
 * `generate_file_sizes.py`: ask each listed URL for its size with a HEAD
 * request and collect the positive sizes by file name.
 */
module Sizes {
  import opened Options
  import opened Text
  import opened LineReader
  import opened Catalogue

  predicate IsDigit(c: char) {
    '0' <= c <= '9'
  }

  function DigitValue(c: char): nat
    requires IsDigit(c)
  {
    (c as int) - ('0' as int)
  }

  function DigitChar(d: nat): (c: char)
    requires d < 10
    ensures IsDigit(c) && DigitValue(c) == d
  {
    (('0' as int) + d) as char
  }

  /**
   * The digit part `int()` accepts: digits, with single underscores allowed
   * between two digits.
   */
  predicate DigitString(d: string) {
    && d != []
    && IsDigit(d[0]) && IsDigit(d[|d| - 1])
    && (forall k :: 0 <= k < |d| ==> IsDigit(d[k]) || d[k] == '_')
    && (forall k :: 0 <= k < |d| - 1 ==> IsDigit(d[k]) || IsDigit(d[k + 1]))
  }

  /** The number a digit string denotes, underscores ignored. */
  function DigitsValue(d: string): nat
    requires forall k :: 0 <= k < |d| ==> IsDigit(d[k]) || d[k] == '_'
  {
    if d == [] then 0
    else
      var last := d[|d| - 1];
      var init := DigitsValue(d[..|d| - 1]);
      if last == '_' then init else init * 10 + DigitValue(last)
  }

  /**
   * `sys.int_info.default_max_str_digits`: since Python 3.11, `int()` in base
   * 10 raises `ValueError` on a numeral with more digits than this.
   */
  const MaxStrDigits: nat := 4300

  /** The number of digits of a numeral, underscores not counted. */
  function DigitCount(d: string): (c: nat)
    ensures c <= |d|
  {
    if d == [] then 0
    else DigitCount(d[..|d| - 1]) + (if IsDigit(d[|d| - 1]) then 1 else 0)
  }

  /** Every character of an all-digit numeral counts. */
  lemma {:induction false} DigitCountAllDigits(d: string)
    requires forall k :: 0 <= k < |d| ==> IsDigit(d[k])
    ensures DigitCount(d) == |d|
  {
    if d != [] {
      var init := d[..|d| - 1];
      assert forall k :: 0 <= k < |init| ==> init[k] == d[k];
      DigitCountAllDigits(init);
    }
  }

  /** `int()` on text with the surrounding whitespace already removed. */
  function ParseStripped(t: string): (r: Option<int>)
    ensures r.Some? ==> t != []
  {
    if t == [] then None
    else
      var digits := if t[0] == '-' || t[0] == '+' then t[1..] else t;
      if !DigitString(digits) || DigitCount(digits) > MaxStrDigits then None
      else if t[0] == '-' then Some(0 - DigitsValue(digits))
      else Some(DigitsValue(digits))
  }

  /**
   * The information separators U+001C to U+001F: `str.strip()` removes them,
   * but `int()` skips only the ASCII whitespace `" \t\n\v\f\r"` and the
   * non-ASCII `str.isspace()` characters.
   */
  predicate InfoSeparator(c: char) {
    '\U{1C}' <= c <= '\U{1F}'
  }

  /** The whitespace `int()` skips around a number. */
  predicate IntSpace(c: char) {
    IsSpace(c) && !InfoSeparator(c)
  }

  predicate AllIntSpace(s: string) {
    forall i :: 0 <= i < |s| ==> IntSpace(s[i])
  }

  predicate SeparatorFree(s: string) {
    forall i :: 0 <= i < |s| ==> !InfoSeparator(s[i])
  }

  lemma SeparatorFreeConcat(a: string, b: string)
    requires SeparatorFree(a) && SeparatorFree(b)
    ensures SeparatorFree(a + b)
  {
    forall i | 0 <= i < |a + b|
      ensures !InfoSeparator((a + b)[i])
    {
      if i >= |a| {
        assert (a + b)[i] == b[i - |a|];
      }
    }
  }

  /**
   * Python's `int(text)` in base 10 (ASCII digits): surrounding whitespace
   * is ignored, one sign is allowed, and `None` stands for the `ValueError`
   * raised on anything else. An information separator is neither skipped
   * nor a digit or sign, so text holding one is rejected; text without one
   * has the same surrounding whitespace for `int()` as for `strip()`.
   */
  function ParseInt(text: string): (r: Option<int>)
    ensures r.Some? ==> Strip(text) != []
    ensures r.Some? ==> SeparatorFree(text)
  {
    if !SeparatorFree(text) then None
    else ParseStripped(Strip(text))
  }

  /** `int("\x1c5")` raises: U+001C is whitespace to `strip()` but not to `int()`. */
  lemma ParseSeparatorRejected()
    ensures Strip("\U{1C}5") == "5"
    ensures ParseInt("\U{1C}5") == None
  {
    var t := "\U{1C}5";
    assert InfoSeparator(t[0]);
    assert t == "\U{1C}" + "5" + "";
    StripUnique("\U{1C}", "5", "");
  }

  /** Text without surrounding whitespace parses as it stands. */
  lemma ParseTrimmed(t: string)
    requires Trimmed(t) && SeparatorFree(t)
    ensures ParseInt(t) == ParseStripped(t)
  {
    StripTrimmed(t);
  }

  /** `str(n)`: the decimal digits of `n`, most significant first, no leading zero. */
  function Decimal(n: nat): (d: string)
    ensures d != [] && (forall k :: 0 <= k < |d| ==> IsDigit(d[k]))
    ensures |d| > 1 ==> d[0] != '0'
  {
    if n < 10 then [DigitChar(n)] else Decimal(n / 10) + [DigitChar(n % 10)]
  }

  lemma {:induction false} DecimalValue(n: nat)
    ensures DigitsValue(Decimal(n)) == n
  {
    if n >= 10 {
      var d := Decimal(n);
      assert d[..|d| - 1] == Decimal(n / 10);
      DecimalValue(n / 10);
    }
  }

  /** A digit is not whitespace, so a decimal numeral is its own strip. */
  lemma DecimalTrimmed(n: nat)
    ensures Trimmed(Decimal(n))
  {
    var d := Decimal(n);
    assert IsDigit(d[0]) && IsDigit(d[|d| - 1]);
  }

  /** A digit string parses to its value, unless it has more digits than `int()` accepts. */
  lemma ParseDigits(d: string)
    requires DigitString(d)
    ensures ParseInt(d) == if DigitCount(d) <= MaxStrDigits then Some(DigitsValue(d)) else None
  {
    assert Trimmed(d) by { assert IsDigit(d[0]) && IsDigit(d[|d| - 1]); }
    ParseTrimmed(d);
  }

  /** The sign is read off the first character and the digits after it. */
  lemma ParseStrippedSigned(sign: char, d: string)
    requires sign == '-' || sign == '+'
    requires DigitString(d)
    ensures ParseStripped([sign] + d)
      == if DigitCount(d) > MaxStrDigits then None
         else Some(if sign == '-' then 0 - DigitsValue(d) else DigitsValue(d))
  {
    var t := [sign] + d;
    assert t[0] == sign;
    assert t[1..] == d;
  }

  /** A sign followed by digits has no surrounding whitespace. */
  lemma SignedTrimmed(sign: char, d: string)
    requires sign == '-' || sign == '+'
    requires DigitString(d)
    ensures Trimmed([sign] + d)
  {
    var t := [sign] + d;
    assert t[0] == sign;
    assert t[|t| - 1] == d[|d| - 1];
  }

  /**
   * A digit string after a sign parses to its value with that sign, unless
   * it has more digits than `int()` accepts; the sign is not counted.
   */
  lemma ParseSigned(sign: char, d: string)
    requires sign == '-' || sign == '+'
    requires DigitString(d)
    ensures ParseInt([sign] + d)
      == if DigitCount(d) > MaxStrDigits then None
         else Some(if sign == '-' then 0 - DigitsValue(d) else DigitsValue(d))
  {
    SignedTrimmed(sign, d);
    ParseTrimmed([sign] + d);
    ParseStrippedSigned(sign, d);
  }

  lemma DecimalIsDigitString(n: nat)
    ensures DigitString(Decimal(n))
  {
  }

  /** `int(str(n)) == n` for every `n` of at most 4300 digits; longer numerals are refused. */
  lemma ParseDecimal(n: nat)
    ensures ParseInt(Decimal(n)) == if |Decimal(n)| <= MaxStrDigits then Some(n) else None
  {
    DecimalValue(n);
    DecimalIsDigitString(n);
    DigitCountAllDigits(Decimal(n));
    ParseDigits(Decimal(n));
  }

  /** Whitespace around the number is ignored, as the header may carry it; the digit limit still applies. */
  lemma ParsePadded(p: string, n: nat, q: string)
    requires AllIntSpace(p) && AllIntSpace(q)
    ensures ParseInt(p + Decimal(n) + q) == if |Decimal(n)| <= MaxStrDigits then Some(n) else None
  {
    var d := Decimal(n);
    DecimalTrimmed(n);
    ParseDecimal(n);
    ParseTrimmed(d);
    assert ParseStripped(d) == ParseInt(d);
    StripUnique(p, d, q);
    var t := p + d + q;
    assert SeparatorFree(d) by { assert forall k :: 0 <= k < |d| ==> IsDigit(d[k]); }
    SeparatorFreeConcat(p, d);
    SeparatorFreeConcat(p + d, q);
    assert ParseInt(t) == ParseStripped(d);
  }

  /** The outcome of `session.head(url)`: a status and the `Content-Length` header if present, or an exception. */
  datatype HeadOutcome = HeadResponse(status: int, contentLength: Option<string>) | HeadFailure

  /**
   * `get_file_size(url, session)`: the positive `Content-Length` of a 200
   * response. A missing header reads as 0, and a header `int()` rejects
   * raises inside the `try`; both, like a failed request, give `None`.
   */
  function GetFileSize(h: HeadOutcome): (r: Option<int>)
    ensures r.Some? ==> r.value > 0
    ensures r.Some? ==> h.HeadResponse? && h.status == 200 && h.contentLength.Some?
    ensures h.HeadResponse? && h.status == 200 && h.contentLength.Some?
      && ParseInt(h.contentLength.value).Some? && ParseInt(h.contentLength.value).value > 0
      ==> r == ParseInt(h.contentLength.value)
    ensures h.HeadResponse? && h.contentLength.Some? && ParseInt(h.contentLength.value).None? ==> r.None?
    ensures r.Some? ==> r == ParseInt(h.contentLength.value)
    ensures h.HeadResponse? && h.contentLength.Some? && ParseInt(h.contentLength.value).Some?
      && ParseInt(h.contentLength.value).value <= 0
      ==> r.None?
  {
    if h.HeadFailure? || h.status != 200 then None
    else
      var size := if h.contentLength.None? then Some(0) else ParseInt(h.contentLength.value);
      if size.Some? && size.value > 0 then size else None
  }

  /**
   * A 200 response whose header is a positive decimal of at most 4300 digits
   * gives that size; zero, a longer numeral or no header gives none.
   */
  lemma GetFileSizeOfDecimal(n: nat)
    ensures GetFileSize(HeadResponse(200, Some(Decimal(n))))
      == (if n > 0 && |Decimal(n)| <= MaxStrDigits then Some(n) else None)
    ensures GetFileSize(HeadResponse(200, None)) == None
  {
    ParseDecimal(n);
  }

  /** A negative `Content-Length` is parsed but refused. */
  lemma GetFileSizeOfNegative(d: string)
    requires DigitString(d)
    ensures GetFileSize(HeadResponse(200, Some(['-'] + d))) == None
  {
    ParseSigned('-', d);
  }

  /**
   * The loop of `main()`: for each URL, in order, store its size under its
   * file name when it got one; `names[n]` is the `n`-th URL's
   * `url.split('/')[-1]` and `sizes(n)` what `get_file_size` gave for it.
   */
  function CollectSizes(names: seq<string>, sizes: nat -> Option<int>): (m: map<string, int>)
    requires forall n :: sizes(n).Some? ==> sizes(n).value > 0
    ensures |m| <= |names|
    ensures forall k :: k in m ==> m[k] > 0
    decreases |names|
  {
    if names == [] then map[]
    else
      var n := |names| - 1;
      var m := CollectSizes(names[..n], sizes);
      match sizes(n)
      case None => m
      case Some(v) => m[names[n] := v]
  }

  /** A name is recorded exactly when some URL with that name got a size. */
  lemma {:induction false} CollectSizesKeys(names: seq<string>, sizes: nat -> Option<int>, name: string)
    requires forall n :: sizes(n).Some? ==> sizes(n).value > 0
    ensures name in CollectSizes(names, sizes) <==>
      exists n :: 0 <= n < |names| && names[n] == name && sizes(n).Some?
    decreases |names|
  {
    if names != [] {
      var n := |names| - 1;
      var init := names[..n];
      CollectSizesKeys(init, sizes, name);
      if name in CollectSizes(init, sizes) {
        var w :| 0 <= w < n && init[w] == name && sizes(w).Some?;
        assert names[w] == name;
      }
      if exists w :: 0 <= w < |names| && names[w] == name && sizes(w).Some? {
        var w :| 0 <= w < |names| && names[w] == name && sizes(w).Some?;
        if w < n {
          assert init[w] == name;
        }
      }
    }
  }

  /**
   * The size recorded for a name is that of the last URL with that name
   * that got one: a later success overwrites, a later failure does not erase.
   */
  lemma {:induction false} CollectSizesLastWins(names: seq<string>, sizes: nat -> Option<int>, name: string, n: nat)
    requires forall n :: sizes(n).Some? ==> sizes(n).value > 0
    requires n < |names| && names[n] == name && sizes(n).Some?
    requires forall j :: n < j < |names| && names[j] == name ==> sizes(j).None?
    ensures name in CollectSizes(names, sizes)
    ensures CollectSizes(names, sizes)[name] == sizes(n).value
    decreases |names|
  {
    var last := |names| - 1;
    if n < last {
      var init := names[..last];
      assert init[n] == name;
      assert forall j :: n < j < |init| && init[j] == name ==> sizes(j).None? by {
        assert forall j :: n < j < |init| ==> init[j] == names[j];
      }
      CollectSizesLastWins(init, sizes, name, n);
    }
  }

  /** What `get_file_size` gives for each position, from the HEAD outcomes. */
  function SizeOf(probe: nat -> HeadOutcome): (sizes: nat -> Option<int>)
    ensures forall n :: sizes(n).Some? ==> sizes(n).value > 0
  {
    var sizes := (n: nat) => GetFileSize(probe(n));
    assert forall n: nat :: sizes(n) == GetFileSize(probe(n));
    sizes
  }

  /** `generate_file_sizes.py`'s `main()` on the text of the download list, before the JSON dump. */
  function GenerateFileSizes(listing: string, probe: nat -> HeadOutcome): (m: map<string, int>)
    ensures |m| <= |NonBlankLines(listing)|
    ensures forall k :: k in m ==> m[k] > 0
  {
    CollectSizes(FileNames(NonBlankLines(listing)), SizeOf(probe))
  }
}
