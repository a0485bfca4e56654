/** The .NET text operations the converter applies to registry keys, file
    names and scene text: `int.ToString()`, `Int32.Parse`, `Path.GetExtension`,
    `ToLowerInvariant` and `Split(',')[0]`, each at the behaviour the
    converter depends on. */
module Text {
  import opened Common

  predicate IsDigit(c: char)
  {
    '0' <= c <= '9'
  }

  predicate AllDigits(s: string)
  {
    forall i :: 0 <= i < |s| ==> IsDigit(s[i])
  }

  function DigitChar(d: nat): (c: char)
    requires d < 10
    ensures IsDigit(c)
  {
    ('0' as int + d) as char
  }

  /** The decimal digits of `n`, most significant first, without leading zeros. */
  function Digits(n: nat): (s: string)
    ensures |s| >= 1 && AllDigits(s)
  {
    if n < 10 then [DigitChar(n)] else Digits(n / 10) + [DigitChar(n % 10)]
  }

  /** `int.ToString()`: a minus sign for negative values, then the digits. */
  function DecimalString(n: int): (s: string)
    ensures |s| >= 1 && IsDigit(s[|s| - 1])
    ensures s[0] == '-' <==> n < 0
    ensures forall i :: 0 <= i < |s| ==> IsDigit(s[i]) || (i == 0 && s[i] == '-')
    ensures n >= 0 ==> s == Digits(n)
    ensures n < 0 ==> s == "-" + Digits(-n)
  {
    if n < 0 then "-" + Digits(-n) else Digits(n)
  }

  /** The number a string of decimal digits denotes. */
  function DigitsValue(s: string): nat
    requires AllDigits(s)
  {
    if s == [] then 0 else DigitsValue(s[..|s| - 1]) * 10 + (s[|s| - 1] as int - '0' as int)
  }

  /** Reading the digits of `n` gives `n` back. */
  lemma {:induction false} DigitsValueOfDigits(n: nat)
    ensures DigitsValue(Digits(n)) == n
  {
    if n >= 10 {
      var s := Digits(n);
      assert s[..|s| - 1] == Digits(n / 10);
      DigitsValueOfDigits(n / 10);
    }
  }

  /** The white space `Int32.Parse` skips at either end: space and the
      control characters tab through carriage return. */
  predicate IsWhite(c: char)
  {
    c == ' ' || '\t' <= c <= '\r'
  }

  /** `s` without its leading white space. */
  function TrimStart(s: string): (r: string)
    ensures |r| <= |s| && r == s[|s| - |r|..]
    ensures r != [] ==> !IsWhite(r[0])
    ensures forall i :: 0 <= i < |s| - |r| ==> IsWhite(s[i])
  {
    if s != [] && IsWhite(s[0]) then TrimStart(s[1..]) else s
  }

  /** `s` without its trailing white space. */
  function TrimEnd(s: string): (r: string)
    ensures |r| <= |s| && r == s[..|r|]
    ensures r != [] ==> !IsWhite(r[|r| - 1])
    ensures forall i :: |r| <= i < |s| ==> IsWhite(s[i])
  {
    if s != [] && IsWhite(s[|s| - 1]) then TrimEnd(s[..|s| - 1]) else s
  }

  /** `Int32.Parse` under the default integer style: optional white space at
      either end, an optional sign, one or more ASCII digits. Anything else is
      a format error; a well-formed number outside the 32-bit range is an
      overflow. */
  function ParseInt32(s: string): (r: Result<int, Failure>)
    ensures r.Success? ==> Int32Min <= r.value <= Int32Max
    ensures r.Failure? ==> r.error == FormatError || r.error == Overflow
  {
    ParseSigned(TrimEnd(TrimStart(s)))
  }

  /** `Int32.Parse` after the white space is trimmed: an optional sign, then
      digits. */
  function ParseSigned(t: string): (r: Result<int, Failure>)
    ensures r.Success? ==> Int32Min <= r.value <= Int32Max
    ensures r.Failure? ==> r.error == FormatError || r.error == Overflow
  {
    var signed := |t| > 0 && (t[0] == '-' || t[0] == '+');
    var digits := if signed then t[1..] else t;
    if |digits| == 0 || !AllDigits(digits) then Failure(FormatError)
    else
      var v: int := if signed && t[0] == '-' then -(DigitsValue(digits) as int) else DigitsValue(digits);
      if Int32Min <= v <= Int32Max then Success(v) else Failure(Overflow)
  }

  /** A string that neither starts nor ends with white space is not trimmed. */
  lemma TrimNothing(s: string)
    requires s != [] && !IsWhite(s[0]) && !IsWhite(s[|s| - 1])
    ensures TrimEnd(TrimStart(s)) == s
  {
  }

  /** The digits of `n`, after a minus sign when `n` is negative, parse as
      `n` when it fits in an `int`. */
  lemma ParseSignedDigits(n: int)
    ensures Int32Min <= n <= Int32Max ==> ParseSigned(DecimalString(n)) == Success(n)
    ensures !(Int32Min <= n <= Int32Max) ==> ParseSigned(DecimalString(n)) == Failure(Overflow)
  {
    var s := DecimalString(n);
    if n < 0 {
      assert s[1..] == Digits(-n);
      DigitsValueOfDigits(-n);
    } else {
      DigitsValueOfDigits(n);
    }
  }

  /** Parsing the decimal form of a number gives the number when it fits in
      an `int` and an overflow otherwise. */
  lemma ParseDecimal(n: int)
    ensures Int32Min <= n <= Int32Max ==> ParseInt32(DecimalString(n)) == Success(n)
    ensures !(Int32Min <= n <= Int32Max) ==> ParseInt32(DecimalString(n)) == Failure(Overflow)
  {
    TrimNothing(DecimalString(n));
    ParseSignedDigits(n);
  }

  lemma DigitsInjective(a: nat, b: nat)
    requires Digits(a) == Digits(b)
    ensures a == b
  {
    DigitsValueOfDigits(a);
    DigitsValueOfDigits(b);
  }

  /** Different numbers have different decimal forms. */
  lemma DecimalInjective(m: int, n: int)
    requires DecimalString(m) == DecimalString(n)
    ensures m == n
  {
    var s := DecimalString(m);
    if m < 0 && n < 0 {
      assert s[1..] == Digits(-m) == Digits(-n);
      DigitsInjective(-m, -n);
    } else if m >= 0 && n >= 0 {
      DigitsInjective(m, n);
    }
  }

  /** `Split(',')[0]`: the text before the first comma, or all of it. */
  function FirstField(s: string): (r: string)
    ensures |r| <= |s| && r == s[..|r|]
    ensures forall i :: 0 <= i < |r| ==> r[i] != ','
    ensures |r| < |s| ==> s[|r|] == ','
  {
    if s == [] || s[0] == ',' then [] else [s[0]] + FirstField(s[1..])
  }

  /** The characters at which `Path.GetExtension` stops looking for a dot:
      the two directory separators and the volume separator. */
  predicate IsSeparator(c: char)
  {
    c == '\\' || c == '/' || c == ':'
  }

  /** The offset of the last dot not followed by a separator, scanning from
      the end of `path`. */
  function DotIndex(path: string): (r: Option<nat>)
    ensures r.Some? ==> r.value < |path| && path[r.value] == '.'
    ensures r.Some? ==> forall j :: r.value < j < |path| ==> path[j] != '.' && !IsSeparator(path[j])
  {
    if |path| == 0 then None
    else if path[|path| - 1] == '.' then Some(|path| - 1)
    else if IsSeparator(path[|path| - 1]) then None
    else DotIndex(path[..|path| - 1])
  }

  /** A dot with neither a dot nor a separator after it is the one found. */
  lemma {:induction false} DotIndexIs(path: string, k: nat)
    requires k < |path| && path[k] == '.'
    requires forall j :: k < j < |path| ==> path[j] != '.' && !IsSeparator(path[j])
    ensures DotIndex(path) == Some(k)
    decreases |path|
  {
    if k < |path| - 1 {
      var init := path[..|path| - 1];
      assert forall j :: k < j < |init| ==> init[j] == path[j];
      DotIndexIs(init, k);
    }
  }

  /** `Path.GetExtension`: from the last dot to the end, or empty when there
      is no dot after the last separator or the dot is the last character. */
  function GetExtension(path: string): (ext: string)
    ensures ext == [] || (2 <= |ext| <= |path| && ext[0] == '.' && ext == path[|path| - |ext|..])
  {
    match DotIndex(path)
    case None => []
    case Some(i) => if i == |path| - 1 then [] else path[i..]
  }

  /** `ToLowerInvariant` on ASCII letters. */
  function LowerChar(c: char): char
  {
    if 'A' <= c <= 'Z' then (c as int + 32) as char else c
  }

  function Lower(s: string): string
  {
    seq(|s|, i requires 0 <= i < |s| => LowerChar(s[i]))
  }

  /** A dot followed by one or more lower-case letters, such as ".png". */
  predicate IsPlainExtension(e: string)
  {
    |e| >= 2 && e[0] == '.' && forall i :: 1 <= i < |e| ==> 'a' <= e[i] <= 'z'
  }

  /** A path has the extension `e`, compared case-insensitively, exactly when
      it ends with `e` up to case: dots and separators have no case, so the
      last dot is the one `e` starts with. */
  lemma ExtensionIsSuffix(path: string, e: string)
    requires IsPlainExtension(e)
    ensures Lower(GetExtension(path)) == e <==> |path| >= |e| && Lower(path[|path| - |e|..]) == e
  {
    if |path| >= |e| && Lower(path[|path| - |e|..]) == e {
      var k := |path| - |e|;
      forall j | k <= j < |path|
        ensures LowerChar(path[j]) == e[j - k]
      {
        assert Lower(path[k..])[j - k] == LowerChar(path[j]);
      }
      assert LowerChar(path[k]) == '.';
      DotIndexIs(path, k);
      assert GetExtension(path) == path[k..];
    }
    var ext := GetExtension(path);
    if Lower(ext) == e {
      assert |ext| == |e|;
    }
  }
}
