/** Models of the JavaScript built-ins the logger relies on.

    Trimming, splitting, `includes`, `parseInt`, number-to-string conversion,
    `Array.prototype.sort`, `new Set(...)` and the enumeration order of an
    object's own keys are modelled concretely. The built-ins whose results depend
    on Unicode tables or on the user's locale are kept abstract: they are the
    fields of `Runtime`, passed to every operation that uses them. */
module JsString {

  datatype Option<T> = None | Some(value: T)

  /** `String.prototype.toLowerCase`, `toUpperCase`, `normalize('NFD')` and
      `localeCompare`, as supplied by the browser. */
  datatype Runtime = Runtime(
    toLowerCase: string -> string,
    toUpperCase: string -> string,
    nfd: string -> string,
    localeCompare: (string, string) -> int)

  /** Lower-casing and decomposing leave the empty string empty. */
  predicate KeepsEmpty(rt: Runtime) {
    rt.toLowerCase("") == "" && rt.nfd("") == ""
  }

  /** ECMAScript WhiteSpace and LineTerminator code points: what `trim` removes
      and what `parseInt` skips. */
  predicate IsWhiteSpace(c: char) {
    || c == '\U{9}' || c == '\U{A}' || c == '\U{B}' || c == '\U{C}' || c == '\U{D}'
    || c == ' ' || c == '\U{A0}' || c == '\U{1680}' || '\U{2000}' <= c <= '\U{200A}'
    || c == '\U{2028}' || c == '\U{2029}' || c == '\U{202F}' || c == '\U{205F}'
    || c == '\U{3000}' || c == '\U{FEFF}'
  }

  predicate AllWhiteSpace(s: string) {
    forall i :: 0 <= i < |s| ==> IsWhiteSpace(s[i])
  }

  /** Leading white space removed. */
  function TrimStart(s: string): string {
    if s != [] && IsWhiteSpace(s[0]) then TrimStart(s[1..]) else s
  }

  /** Trailing white space removed. */
  function TrimEnd(s: string): string {
    if s != [] && IsWhiteSpace(s[|s| - 1]) then TrimEnd(s[..|s| - 1]) else s
  }

  /** `String.prototype.trim`. */
  function Trim(s: string): string {
    TrimEnd(TrimStart(s))
  }

  /** `TrimStart` removes a white-space prefix, up to a character that is
      not white space. */
  lemma {:induction false} TrimStartSplits(s: string) returns (w: string)
    ensures s == w + TrimStart(s) && AllWhiteSpace(w)
    ensures TrimStart(s) == [] || !IsWhiteSpace(TrimStart(s)[0])
  {
    if s != [] && IsWhiteSpace(s[0]) {
      var w' := TrimStartSplits(s[1..]);
      w := [s[0]] + w';
      assert s == [s[0]] + s[1..];
    } else {
      w := [];
    }
  }

  /** `TrimEnd` removes a white-space suffix, back to a character that is
      not white space. */
  lemma {:induction false} TrimEndSplits(s: string) returns (w: string)
    ensures s == TrimEnd(s) + w && AllWhiteSpace(w)
    ensures TrimEnd(s) == [] || !IsWhiteSpace(TrimEnd(s)[|TrimEnd(s)| - 1])
  {
    if s != [] && IsWhiteSpace(s[|s| - 1]) {
      var n := |s| - 1;
      var w' := TrimEndSplits(s[..n]);
      w := w' + [s[n]];
      assert s == s[..n] + [s[n]];
    } else {
      w := [];
    }
  }

  /** `Trim` cuts white space off both ends and nothing else. */
  lemma {:induction false} TrimDecompose(s: string) returns (w1: string, w2: string)
    ensures s == w1 + Trim(s) + w2
    ensures AllWhiteSpace(w1) && AllWhiteSpace(w2)
    ensures Trim(s) == [] || (!IsWhiteSpace(Trim(s)[0]) && !IsWhiteSpace(Trim(s)[|Trim(s)| - 1]))
  {
    var t := TrimStart(s);
    w1 := TrimStartSplits(s);
    w2 := TrimEndSplits(t);
    var r := TrimEnd(t);
    assert t == r + w2;
    if r != [] {
      assert r[0] == t[0];
    }
  }

  /** Only a blank string trims to nothing. */
  lemma {:induction false} TrimBlank(s: string)
    ensures Trim(s) == [] <==> AllWhiteSpace(s)
  {
    var w1, w2 := TrimDecompose(s);
    var r := Trim(s);
    if r == [] {
      assert s == w1 + w2;
    } else {
      assert s[|w1|] == r[0];
    }
  }

  /** A trimmed string is no longer than the original. */
  lemma {:induction false} TrimShorter(s: string)
    ensures |Trim(s)| <= |s|
  {
    var w1, w2 := TrimDecompose(s);
  }

  /** A string with no white space at either end is its own trim. */
  lemma {:induction false} TrimOfTrimmed(r: string)
    requires r == [] || (!IsWhiteSpace(r[0]) && !IsWhiteSpace(r[|r| - 1]))
    ensures Trim(r) == r
  {
  }

  lemma {:induction false} TrimIdempotent(s: string)
    ensures Trim(Trim(s)) == Trim(s)
  {
    var w1, w2 := TrimDecompose(s);
    TrimOfTrimmed(Trim(s));
  }

  /** White space in front of a string does not survive `TrimStart`. */
  lemma {:induction false} TrimStartSkips(w: string, x: string)
    requires AllWhiteSpace(w)
    ensures TrimStart(w + x) == TrimStart(x)
  {
    if w != [] {
      assert (w + x)[0] == w[0];
      assert (w + x)[1..] == w[1..] + x;
      TrimStartSkips(w[1..], x);
    } else {
      assert w + x == x;
    }
  }

  /** White space in front of a string does not survive trimming. */
  lemma {:induction false} TrimSkipsLeadingWhiteSpace(w: string, x: string)
    requires AllWhiteSpace(w)
    ensures Trim(w + x) == Trim(x)
  {
    TrimStartSkips(w, x);
  }

  /** White space after a string does not survive `TrimEnd`. */
  lemma {:induction false} TrimEndSkips(x: string, w: string)
    requires AllWhiteSpace(w)
    ensures TrimEnd(x + w) == TrimEnd(x)
  {
    if w != [] {
      var n := |w| - 1;
      assert (x + w)[|x + w| - 1] == w[n];
      assert (x + w)[..|x + w| - 1] == x + w[..n];
      TrimEndSkips(x, w[..n]);
    } else {
      assert x + w == x;
    }
  }

  /** `TrimStart` stops at a character that is not white space. */
  lemma {:induction false} TrimStartStops(x: string, w: string)
    requires x != [] && !IsWhiteSpace(x[0])
    ensures TrimStart(x + w) == x + w
  {
    assert (x + w)[0] == x[0];
  }

  /** `s.split(sep)` for a one-character separator: the maximal separator-free
      pieces, in order; an empty string gives one empty piece. */
  function Split(s: string, sep: char): (r: seq<string>)
    ensures |r| >= 1
  {
    if s == [] then [""]
    else if s[0] == sep then [""] + Split(s[1..], sep)
    else
      var rest := Split(s[1..], sep);
      [[s[0]] + rest[0]] + rest[1..]
  }

  /** The pieces hold no separator and, joined with it, give the string back. */
  lemma {:induction false} SplitShape(s: string, sep: char)
    ensures forall p :: p in Split(s, sep) ==> sep !in p
    ensures Join(Split(s, sep), sep) == s
  {
    if s != [] {
      var rest := Split(s[1..], sep);
      SplitShape(s[1..], sep);
      assert s == [s[0]] + s[1..];
      if s[0] == sep {
        assert (Split(s, sep))[1..] == rest;
      } else {
        JoinPadFirst([s[0]], rest, sep);
        forall p | p in Split(s, sep) ensures sep !in p {
          if p != [s[0]] + rest[0] {
            assert p in rest[1..];
          }
        }
      }
    }
  }

  /** `parts.join(sep)`. */
  function Join(parts: seq<string>, sep: char): string {
    if parts == [] then ""
    else if |parts| == 1 then parts[0]
    else parts[0] + [sep] + Join(parts[1..], sep)
  }

  /** Splitting a joined list gives the list back when no part holds the separator. */
  lemma {:induction false} SplitJoin(parts: seq<string>, sep: char)
    requires |parts| >= 1
    requires forall p :: p in parts ==> sep !in p
    ensures Split(Join(parts, sep), sep) == parts
  {
    if |parts| == 1 {
      SplitNoSeparator(parts[0], sep);
    } else {
      SplitJoin(parts[1..], sep);
      SplitAfterPiece(parts[0], Join(parts[1..], sep), sep);
    }
  }

  lemma {:induction false} SplitNoSeparator(s: string, sep: char)
    requires sep !in s
    ensures Split(s, sep) == [s]
  {
    if s != [] {
      assert sep !in s[1..];
      SplitNoSeparator(s[1..], sep);
      assert s == [s[0]] + s[1..];
    }
  }

  lemma {:induction false} SplitAfterPiece(p: string, rest: string, sep: char)
    requires sep !in p
    ensures Split(p + [sep] + rest, sep) == [p] + Split(rest, sep)
  {
    if p == [] {
      assert p + [sep] + rest == [sep] + rest;
      assert ([sep] + rest)[1..] == rest;
    } else {
      assert (p + [sep] + rest)[1..] == p[1..] + [sep] + rest;
      assert sep !in p[1..];
      SplitAfterPiece(p[1..], rest, sep);
      assert [p[0]] + p[1..] == p;
    }
  }

  lemma {:induction false} JoinAppend(a: seq<string>, b: seq<string>, sep: char)
    requires |a| >= 1 && |b| >= 1
    ensures Join(a + b, sep) == Join(a, sep) + [sep] + Join(b, sep)
  {
    if |a| == 1 {
      assert (a + b)[1..] == b;
    } else {
      assert (a + b)[1..] == a[1..] + b;
      JoinAppend(a[1..], b, sep);
    }
  }

  /** Text in front of the first piece is text in front of the joined string. */
  lemma {:induction false} JoinPadFirst(w: string, parts: seq<string>, sep: char)
    requires |parts| >= 1
    ensures Join([w + parts[0]] + parts[1..], sep) == w + Join(parts, sep)
  {
    var q := [w + parts[0]] + parts[1..];
    assert q[1..] == parts[1..];
  }

  /** Text after the last piece is text after the joined string. */
  lemma {:induction false} JoinPadLast(parts: seq<string>, w: string, sep: char)
    requires |parts| >= 1
    ensures var n := |parts| - 1;
      Join(parts[..n] + [parts[n] + w], sep) == Join(parts, sep) + w
  {
    var n := |parts| - 1;
    if n > 0 {
      var q := parts[..n] + [parts[n] + w];
      assert q[1..] == parts[1..][..n - 1] + [parts[1..][n - 1] + w];
      JoinPadLast(parts[1..], w, sep);
    }
  }

  /** Splitting at a separator between two strings splits each of them. */
  lemma {:induction false} SplitConcat(a: string, b: string, sep: char)
    ensures Split(a + [sep] + b, sep) == Split(a, sep) + Split(b, sep)
  {
    var r := Split(a, sep) + Split(b, sep);
    SplitShape(a, sep);
    SplitShape(b, sep);
    JoinAppend(Split(a, sep), Split(b, sep), sep);
    SplitJoin(r, sep);
  }

  /** Separator-free text around a string only widens its first and last pieces. */
  lemma {:induction false} SplitPadded(w1: string, s: string, w2: string, sep: char)
    requires sep !in w1 && sep !in w2
    ensures var p := Split(s, sep);
      var q := [w1 + p[0]] + p[1..];
      var n := |q| - 1;
      Split(w1 + s + w2, sep) == q[..n] + [q[n] + w2]
  {
    var p := Split(s, sep);
    var q := [w1 + p[0]] + p[1..];
    var n := |q| - 1;
    var r := q[..n] + [q[n] + w2];
    SplitShape(s, sep);
    JoinPadFirst(w1, p, sep);
    JoinPadLast(q, w2, sep);
    assert forall x :: x in r ==> x in p || x == w1 + p[0] || x == q[n] + w2;
    assert q[n] == p[n] || q[n] == w1 + p[0];
    SplitJoin(r, sep);
  }

  /** Every character of a joined string is the separator or a character of a part. */
  lemma {:induction false} JoinChars(parts: seq<string>, sep: char, c: char)
    requires c in Join(parts, sep) && c != sep
    ensures exists j :: 0 <= j < |parts| && c in parts[j]
  {
    if |parts| > 1 {
      if c !in parts[0] {
        JoinChars(parts[1..], sep, c);
        var j :| 0 <= j < |parts[1..]| && c in parts[1..][j];
        assert c in parts[j + 1];
      }
    }
  }

  /** Every character of a part is a character of the joined string. */
  lemma {:induction false} PartChars(parts: seq<string>, sep: char, j: int)
    requires 0 <= j < |parts|
    ensures forall c :: c in parts[j] ==> c in Join(parts, sep)
  {
    if j > 0 {
      PartChars(parts[1..], sep, j - 1);
    }
  }

  lemma {:induction false} TrimChars(s: string)
    ensures forall c :: c in Trim(s) ==> c in s
  {
    var w1, w2 := TrimDecompose(s);
  }

  lemma {:induction false} TrimKeepsAbsent(s: string, c: char)
    requires c !in s
    ensures c !in Trim(s)
  {
    TrimChars(s);
  }

  /** White space after a string does not survive trimming. */
  lemma {:induction false} TrimSkipsTrailingWhiteSpace(x: string, w: string)
    requires AllWhiteSpace(w)
    ensures Trim(x + w) == Trim(x)
  {
    var v := TrimStartSplits(x);
    var t := TrimStart(x);
    assert x + w == v + (t + w);
    TrimStartSkips(v, t + w);
    if t == [] {
      assert t + w == w;
      TrimStartSkips(w, []);
      assert w + [] == w;
    } else {
      TrimStartStops(t, w);
      TrimEndSkips(t, w);
    }
  }

  /** White space added at either end does not survive trimming. */
  lemma {:induction false} TrimPadded(w1: string, x: string, w2: string)
    requires AllWhiteSpace(w1) && AllWhiteSpace(w2)
    ensures Trim(w1 + x + w2) == Trim(x)
  {
    assert w1 + x + w2 == w1 + (x + w2);
    TrimSkipsLeadingWhiteSpace(w1, x + w2);
    TrimSkipsTrailingWhiteSpace(x, w2);
  }

  /** `s.startsWith(prefix)`. */
  predicate StartsWith(s: string, prefix: string) {
    |prefix| <= |s| && s[..|prefix|] == prefix
  }

  /** `s.includes(sub)`. */
  predicate Includes(s: string, sub: string) {
    StartsWith(s, sub) || (s != [] && Includes(s[1..], sub))
  }

  lemma IncludesEmpty(s: string)
    ensures Includes(s, "")
  {}

  /** `Includes` holds exactly when `sub` occurs at some position of `s`. */
  lemma {:induction false} IncludesAt(s: string, sub: string)
    ensures Includes(s, sub) <==> exists i :: 0 <= i <= |s| - |sub| && s[i..][..|sub|] == sub
  {
    assert s[0..] == s;
    if s != [] {
      IncludesAt(s[1..], sub);
      if Includes(s[1..], sub) {
        var i :| 0 <= i <= |s[1..]| - |sub| && s[1..][i..][..|sub|] == sub;
        assert s[i + 1..] == s[1..][i..];
      }
      if exists i :: 0 <= i <= |s| - |sub| && s[i..][..|sub|] == sub {
        var i :| 0 <= i <= |s| - |sub| && s[i..][..|sub|] == sub;
        if i > 0 {
          assert s[1..][i - 1..] == s[i..];
        }
      }
    }
  }

  /** A combining diacritical mark, U+0300 to U+036F. */
  predicate IsCombiningMark(c: char) {
    '\U{300}' <= c <= '\U{36F}'
  }

  /** `s.replace(/[\u0300-\u036f]/g, '')`: every combining mark removed. */
  function StripCombiningMarks(s: string): (r: string)
    ensures forall i :: 0 <= i < |r| ==> !IsCombiningMark(r[i])
    ensures |r| <= |s|
  {
    if s == [] then []
    else (if IsCombiningMark(s[0]) then [] else [s[0]]) + StripCombiningMarks(s[1..])
  }

  /** Removing the marks is a filter: the kept characters are exactly those of
      `s` that are not marks, in order. */
  lemma {:induction false} StripCombiningMarksKeeps(s: string)
    ensures StripCombiningMarks(s) == s <==> forall i :: 0 <= i < |s| ==> !IsCombiningMark(s[i])
  {
    if s != [] {
      StripCombiningMarksKeeps(s[1..]);
      if StripCombiningMarks(s) == s {
        assert |StripCombiningMarks(s[1..])| <= |s| - 1;
        assert !IsCombiningMark(s[0]);
        assert StripCombiningMarks(s[1..]) == s[1..];
      }
    }
  }

  // ---------------------------------------------------------------- numbers

  /** Value of a digit character in radix 36 notation, 36 for a non-digit. */
  function DigitValue(c: char): (d: nat)
    ensures d <= 36
  {
    if '0' <= c <= '9' then (c as int - '0' as int)
    else if 'a' <= c <= 'z' then (c as int - 'a' as int) + 10
    else if 'A' <= c <= 'Z' then (c as int - 'A' as int) + 10
    else 36
  }

  predicate IsDigit(c: char, radix: nat) {
    DigitValue(c) < radix
  }

  /** The longest prefix of `s` made of digits of the radix. */
  function DigitPrefix(s: string, radix: nat): (r: string)
    ensures |r| <= |s| && r == s[..|r|]
    ensures forall i :: 0 <= i < |r| ==> IsDigit(r[i], radix)
    ensures |r| < |s| ==> !IsDigit(s[|r|], radix)
  {
    if s != [] && IsDigit(s[0], radix) then [s[0]] + DigitPrefix(s[1..], radix) else []
  }

  /** Positional value of a digit string. */
  function DigitsValue(ds: string, radix: nat): nat {
    if ds == [] then 0
    else DigitsValue(ds[..|ds| - 1], radix) * radix + (DigitValue(ds[|ds| - 1]) % 36)
  }

  /** `parseInt(s)` with no radix argument: leading white space skipped, an
      optional sign, a `0x` or `0X` prefix selecting radix 16, then the longest
      run of digits; `None` stands for NaN (no digit at all). */
  function ParseInt(s: string): Option<int> {
    ParseSigned(TrimStart(s))
  }

  function ParseSigned(t: string): Option<int> {
    if t != [] && t[0] == '-' then
      match ParseMagnitude(t[1..])
      case None => None
      case Some(v) => Some(-v)
    else if t != [] && t[0] == '+' then ParseMagnitude(t[1..])
    else ParseMagnitude(t)
  }

  function ParseMagnitude(u: string): Option<int> {
    if |u| >= 2 && u[0] == '0' && (u[1] == 'x' || u[1] == 'X') then ParseDigits(u[2..], 16)
    else ParseDigits(u, 10)
  }

  function ParseDigits(u: string, radix: nat): Option<int> {
    var ds := DigitPrefix(u, radix);
    if ds == [] then None else Some(DigitsValue(ds, radix))
  }

  function DecimalDigit(d: nat): char
    requires d < 10
  {
    ('0' as int + d) as char
  }

  /** `String(n)` for a natural number. */
  function NatToString(n: nat): (r: string)
    ensures r != []
  {
    if n < 10 then [DecimalDigit(n)] else NatToString(n / 10) + [DecimalDigit(n % 10)]
  }

  /** `String(i)` for an integer. */
  function IntToString(i: int): (r: string)
    ensures r != []
  {
    if i < 0 then "-" + NatToString(-i) else NatToString(i)
  }

  /** A non-empty run of decimal digits. */
  predicate IsNumeral(r: string) {
    r != [] && forall i :: 0 <= i < |r| ==> '0' <= r[i] <= '9'
  }

  /** `String(n)` is the decimal numeral of `n`, with no leading zero. */
  lemma {:induction false} NatToStringNumeral(n: nat)
    ensures IsNumeral(NatToString(n))
    ensures NatToString(n)[0] == '0' <==> n == 0
    ensures DigitsValue(NatToString(n), 10) == n
  {
    var r := NatToString(n);
    if n >= 10 {
      var q := NatToString(n / 10);
      NatToStringNumeral(n / 10);
      assert r == q + [DecimalDigit(n % 10)];
      assert r[..|r| - 1] == q;
      assert DigitValue(r[|r| - 1]) == n % 10;
    } else {
      assert DigitValue(r[0]) == n;
    }
  }

  lemma TrimStartKeepsNonBlank(s: string)
    requires s != [] && (s[0] == '-' || '0' <= s[0] <= '9')
    ensures TrimStart(s) == s
  {}

  lemma {:induction false} DigitPrefixStops(ds: string, rest: string, radix: nat)
    requires forall i :: 0 <= i < |ds| ==> IsDigit(ds[i], radix)
    requires rest == [] || !IsDigit(rest[0], radix)
    ensures DigitPrefix(ds + rest, radix) == ds
  {
    if ds == [] {
      assert ds + rest == rest;
    } else {
      assert (ds + rest)[1..] == ds[1..] + rest;
      DigitPrefixStops(ds[1..], rest, radix);
    }
  }

  /** What may follow a printed number for `parseInt` to stop right after
      it: nothing, or a character that is not a decimal digit and cannot
      turn a leading "0" into the "0x" prefix. */
  predicate EndsNumeral(rest: string) {
    rest == [] || (!IsDigit(rest[0], 10) && rest[0] != 'x' && rest[0] != 'X')
  }

  /** `parseInt` reads a printed natural number back from the front of a
      text, up to the first character that ends it. */
  lemma {:induction false} ParseNatPrefix(n: nat, rest: string)
    requires EndsNumeral(rest)
    ensures ParseMagnitude(NatToString(n) + rest) == Some(n)
  {
    var ds := NatToString(n);
    var u := ds + rest;
    NatToStringNumeral(n);
    assert forall i :: 0 <= i < |ds| ==> IsDigit(ds[i], 10);
    DigitPrefixStops(ds, rest, 10);
    if |u| >= 2 && u[0] == '0' {
      assert n == 0 && ds == "0";
      assert u[1] == rest[0];
    }
  }

  /** `parseInt` reads a printed integer back from the front of a text, up
      to the first character that ends it. */
  lemma {:induction false} ParseIntPrefix(i: int, rest: string)
    requires EndsNumeral(rest)
    ensures ParseInt(IntToString(i) + rest) == Some(i)
  {
    if i < 0 {
      ParseNegativePrefix(i, rest);
    } else {
      ParseNonNegativePrefix(i, rest);
    }
  }

  lemma {:induction false} ParseNegativePrefix(i: int, rest: string)
    requires i < 0 && EndsNumeral(rest)
    ensures ParseInt(IntToString(i) + rest) == Some(i)
  {
    var ds := NatToString(-i);
    ParseNatPrefix(-i, rest);
    ParseOfMinus(ds + rest, -i);
    assert IntToString(i) == "-" + ds;
    ConcatAssociative("-", ds, rest);
  }

  lemma ConcatAssociative<T>(a: seq<T>, b: seq<T>, c: seq<T>)
    ensures (a + b) + c == a + (b + c)
  {}

  lemma {:induction false} ParseNonNegativePrefix(i: int, rest: string)
    requires i >= 0 && EndsNumeral(rest)
    ensures ParseInt(IntToString(i) + rest) == Some(i)
  {
    var ds := NatToString(i);
    NatToStringNumeral(i);
    assert '0' <= ds[0] <= '9';
    ParseNatPrefix(i, rest);
    ParseOfDigitStart(ds + rest);
  }

  lemma {:induction false} ParseOfDigitStart(s: string)
    requires s != [] && '0' <= s[0] <= '9'
    ensures ParseInt(s) == ParseMagnitude(s)
  {
    TrimStartKeepsNonBlank(s);
  }

  lemma {:induction false} ParseOfMinus(u: string, v: int)
    requires ParseMagnitude(u) == Some(v)
    ensures ParseInt("-" + u) == Some(-v)
  {
    var s := "-" + u;
    assert s[0] == '-';
    assert s[1..] == u;
    TrimStartKeepsNonBlank(s);
  }
}

/** Arrays and sets: filtering, de-duplication and sorting. */
module JsArray {

  /** `s.filter(p)`. */
  function Filter<T>(s: seq<T>, p: T -> bool): (r: seq<T>)
    ensures |r| <= |s|
    ensures forall i :: 0 <= i < |r| ==> p(r[i])
  {
    if s == [] then []
    else
      var n := |s| - 1;
      Filter(s[..n], p) + (if p(s[n]) then [s[n]] else [])
  }

  lemma {:induction false} FilterKeeps<T>(s: seq<T>, p: T -> bool, x: T)
    ensures x in Filter(s, p) <==> x in s && p(x)
  {
    if s != [] {
      var n := |s| - 1;
      FilterKeeps(s[..n], p, x);
      assert s == s[..n] + [s[n]];
    }
  }

  lemma {:induction false} FilterConcat<T>(a: seq<T>, b: seq<T>, p: T -> bool)
    ensures Filter(a + b, p) == Filter(a, p) + Filter(b, p)
  {
    if b == [] {
      assert a + b == a;
    } else {
      var n := |b| - 1;
      assert (a + b)[..|a + b| - 1] == a + b[..n];
      FilterConcat(a, b[..n], p);
    }
  }

  lemma {:induction false} FilterAll<T>(s: seq<T>, p: T -> bool)
    requires forall i :: 0 <= i < |s| ==> p(s[i])
    ensures Filter(s, p) == s
  {
    if s != [] {
      var n := |s| - 1;
      assert forall i :: 0 <= i < n ==> p(s[..n][i]);
      FilterAll(s[..n], p);
      assert p(s[n]);
      assert Filter(s, p) == s[..n] + [s[n]];
      assert s == s[..n] + [s[n]];
    }
  }

  lemma {:induction false} FilterIdempotent<T>(s: seq<T>, p: T -> bool)
    ensures Filter(Filter(s, p), p) == Filter(s, p)
  {
    FilterAll(Filter(s, p), p);
  }

  /** The elements satisfying `p` and the others together are the elements of `s`. */
  lemma {:induction false} FilterSplits<T>(s: seq<T>, p: T -> bool, q: T -> bool)
    requires forall x :: q(x) == !p(x)
    ensures multiset(Filter(s, p)) + multiset(Filter(s, q)) == multiset(s)
  {
    if s != [] {
      var n := |s| - 1;
      var t := s[..n];
      FilterSplits(t, p, q);
      assert s == t + [s[n]];
      assert multiset(s) == multiset(t) + multiset{s[n]};
      if p(s[n]) {
        assert Filter(s, q) == Filter(t, q);
        assert Filter(s, p) == Filter(t, p) + [s[n]];
      } else {
        assert Filter(s, p) == Filter(t, p);
        assert Filter(s, q) == Filter(t, q) + [s[n]];
      }
    }
  }

  /** `s.map(f)`. */
  function Map<A, B>(s: seq<A>, f: A -> B): (r: seq<B>)
    ensures |r| == |s|
    ensures forall i :: 0 <= i < |s| ==> r[i] == f(s[i])
  {
    if s == [] then []
    else
      var n := |s| - 1;
      Map(s[..n], f) + [f(s[n])]
  }

  lemma MapConcat<A, B>(a: seq<A>, b: seq<A>, f: A -> B)
    ensures Map(a + b, f) == Map(a, f) + Map(b, f)
  {
  }

  /** `s.flatMap(f)`: the results of `f` on the elements, one after the other. */
  function FlatMap<A, B>(s: seq<A>, f: A -> seq<B>): seq<B> {
    if s == [] then []
    else
      var n := |s| - 1;
      FlatMap(s[..n], f) + f(s[n])
  }

  lemma {:induction false} FlatMapConcat<A, B>(a: seq<A>, b: seq<A>, f: A -> seq<B>)
    ensures FlatMap(a + b, f) == FlatMap(a, f) + FlatMap(b, f)
  {
    if b == [] {
      assert a + b == a;
    } else {
      var n := |b| - 1;
      var ab := a + b;
      assert ab[..|ab| - 1] == a + b[..n] && ab[|ab| - 1] == b[n];
      FlatMapConcat(a, b[..n], f);
    }
  }

  /** Each element's results sit, in place, between those of the elements before and after it. */
  lemma {:induction false} FlatMapAt<A, B>(s: seq<A>, k: nat, f: A -> seq<B>)
    requires k < |s|
    ensures FlatMap(s, f) == FlatMap(s[..k], f) + f(s[k]) + FlatMap(s[k + 1..], f)
  {
    var pre, mid, post := s[..k], [s[k]], s[k + 1..];
    assert s == pre + mid + post;
    FlatMapConcat(pre + mid, post, f);
    FlatMapConcat(pre, mid, f);
    FlatMapOne(s[k], f);
  }

  lemma {:induction false} FlatMapOne<A, B>(x: A, f: A -> seq<B>)
    ensures FlatMap([x], f) == f(x)
  {
    assert [x][..0] == [];
  }

  /** `r` is obtained from `s` by deleting elements: a subsequence. */
  ghost predicate IsSubsequence<T>(r: seq<T>, s: seq<T>) {
    exists idx: seq<nat> ::
      && |idx| == |r|
      && (forall k :: 0 <= k < |idx| ==> idx[k] < |s| && r[k] == s[idx[k]])
      && (forall k, l :: 0 <= k < l < |idx| ==> idx[k] < idx[l])
  }

  /** Positions in `s` of the elements `Filter` keeps, in increasing order. */
  function KeptPositions<T>(s: seq<T>, p: T -> bool): (idx: seq<nat>)
    ensures |idx| == |Filter(s, p)|
    ensures forall k :: 0 <= k < |idx| ==> idx[k] < |s| && Filter(s, p)[k] == s[idx[k]]
    ensures forall k, l :: 0 <= k < l < |idx| ==> idx[k] < idx[l]
  {
    if s == [] then []
    else
      var n := |s| - 1;
      var prev := KeptPositions(s[..n], p);
      assert forall k :: 0 <= k < |prev| ==> prev[k] < n;
      if p(s[n]) then prev + [n] else prev
  }

  lemma FilterIsSubsequence<T>(s: seq<T>, p: T -> bool)
    ensures IsSubsequence(Filter(s, p), s)
  {
    var idx := KeptPositions(s, p);
    assert |idx| == |Filter(s, p)|;
  }

  predicate NoDuplicates<T(==)>(s: seq<T>) {
    forall i, j :: 0 <= i < j < |s| ==> s[i] != s[j]
  }

  /** Without duplicates, every element occurs once. */
  lemma {:induction false} NoDuplicatesOnce<T>(s: seq<T>)
    requires NoDuplicates(s)
    ensures forall x :: multiset(s)[x] <= 1
  {
    if s != [] {
      var n := |s| - 1;
      var t := s[..n];
      assert NoDuplicates(t) by {
        forall i, j | 0 <= i < j < |t| ensures t[i] != t[j] {
          assert t[i] == s[i] && t[j] == s[j];
        }
      }
      NoDuplicatesOnce(t);
      assert s[n] !in t;
      assert s == t + [s[n]];
    }
  }

  /** Two equal elements make an element occur twice. */
  lemma {:induction false} OnceNoDuplicates<T>(s: seq<T>)
    requires forall x :: multiset(s)[x] <= 1
    ensures NoDuplicates(s)
  {
    forall i, j | 0 <= i < j < |s| ensures s[i] != s[j] {
      PairCounted(s, i, j);
    }
  }

  lemma {:induction false} PairCounted<T>(s: seq<T>, i: nat, j: nat)
    requires i < j < |s|
    ensures s[i] == s[j] ==> multiset(s)[s[j]] >= 2
  {
    assert s == s[..j] + [s[j]] + s[j + 1..];
    assert s[i] in s[..j];
  }

  /** A permutation of a sequence without duplicates has none. */
  lemma PermutationNoDuplicates<T>(a: seq<T>, b: seq<T>)
    requires multiset(a) == multiset(b) && NoDuplicates(a)
    ensures NoDuplicates(b)
  {
    NoDuplicatesOnce(a);
    OnceNoDuplicates(b);
  }

  lemma {:induction false} FilterNoDuplicates<T>(s: seq<T>, p: T -> bool)
    requires NoDuplicates(s)
    ensures NoDuplicates(Filter(s, p))
  {
    if s != [] {
      var n := |s| - 1;
      var t := s[..n];
      assert NoDuplicates(t) by {
        forall i, j | 0 <= i < j < |t| ensures t[i] != t[j] {
          assert t[i] == s[i] && t[j] == s[j];
        }
      }
      FilterNoDuplicates(t, p);
      FilterKeeps(t, p, s[n]);
      assert s[n] !in t;
    }
  }

  lemma NoDuplicatesPrefix<T>(s: seq<T>, n: nat)
    requires NoDuplicates(s) && n <= |s|
    ensures NoDuplicates(s[..n])
  {
    forall i, j | 0 <= i < j < n ensures s[..n][i] != s[..n][j] {
      assert s[..n][i] == s[i] && s[..n][j] == s[j];
    }
  }

  /** Filtering keeps the relative order of what it keeps, so a sorted list
      stays sorted. */
  lemma FilterSorted<T>(s: seq<T>, p: T -> bool, before: (T, T) -> bool)
    requires Sorted(s, before)
    ensures Sorted(Filter(s, p), before)
  {
    var idx := KeptPositions(s, p);
    var r := Filter(s, p);
    forall i, j | 0 <= i < j < |r| ensures !before(r[j], r[i]) {
      assert r[i] == s[idx[i]] && r[j] == s[idx[j]] && idx[i] < idx[j];
    }
  }

  /** Position of the first occurrence of `x` in `s`. */
  function IndexOf<T(==)>(s: seq<T>, x: T): (i: nat)
    requires x in s
    ensures i < |s| && s[i] == x
    ensures forall j :: 0 <= j < i ==> s[j] != x
  {
    if s[0] == x then 0 else 1 + IndexOf(s[1..], x)
  }

  /** `[...new Set(s)]`: each distinct element once, in order of first occurrence. */
  function Distinct<T(==)>(s: seq<T>): (r: seq<T>)
    ensures forall i :: 0 <= i < |r| ==> r[i] in s
    ensures forall i :: 0 <= i < |s| ==> s[i] in r
    ensures NoDuplicates(r)
  {
    if s == [] then []
    else
      var n := |s| - 1;
      var d := Distinct(s[..n]);
      assert s == s[..n] + [s[n]];
      if s[n] in d then d else d + [s[n]]
  }

  /** A sequence without duplicates is its own set. */
  lemma {:induction false} DistinctOfNoDuplicates<T>(s: seq<T>)
    requires NoDuplicates(s)
    ensures Distinct(s) == s
  {
    if s != [] {
      var n := |s| - 1;
      NoDuplicatesPrefix(s, n);
      DistinctOfNoDuplicates(s[..n]);
      assert s[n] !in s[..n];
      assert s == s[..n] + [s[n]];
    }
  }

  // ------------------------------------------------- Set, insertion-ordered

  /** `set.add(x)` on a set held as its elements in insertion order. */
  function SetAdd<T(==)>(s: seq<T>, x: T): seq<T> {
    if x in s then s else s + [x]
  }

  function Other<T(==)>(x: T): T -> bool {
    y => y != x
  }

  /** `set.delete(x)`. */
  function SetDelete<T(==)>(s: seq<T>, x: T): seq<T> {
    Filter(s, Other(x))
  }

  /** `add` inserts exactly `x`, at the end when it is new, and keeps the
      elements distinct. */
  lemma SetAddMembers<T>(s: seq<T>, x: T)
    requires NoDuplicates(s)
    ensures forall y :: y in SetAdd(s, x) <==> y == x || y in s
    ensures NoDuplicates(SetAdd(s, x))
    ensures x !in s ==> SetAdd(s, x) == s + [x]
  {
  }

  /** `delete` removes exactly `x` and keeps the others in order. */
  lemma SetDeleteMembers<T>(s: seq<T>, x: T)
    requires NoDuplicates(s)
    ensures forall y :: y in SetDelete(s, x) <==> y != x && y in s
    ensures NoDuplicates(SetDelete(s, x))
    ensures x !in s ==> SetDelete(s, x) == s
  {
    forall y ensures y in SetDelete(s, x) <==> y != x && y in s {
      FilterKeeps(s, Other(x), y);
    }
    FilterNoDuplicates(s, Other(x));
    if x !in s {
      FilterAll(s, Other(x));
    }
  }

  /** Distinct elements appear in the order of their first occurrence in `s`. */
  lemma {:induction false} DistinctFirstOccurrenceOrder<T>(s: seq<T>)
    ensures forall i, j :: 0 <= i < j < |Distinct(s)| ==>
      IndexOf(s, Distinct(s)[i]) < IndexOf(s, Distinct(s)[j])
  {
    if s != [] {
      var n := |s| - 1;
      DistinctFirstOccurrenceOrder(s[..n]);
      DistinctOrderStep(s[..n], s[n]);
      assert s == s[..n] + [s[n]];
    }
  }

  ghost predicate FirstOccurrenceOrdered<T>(s: seq<T>) {
    forall i, j :: 0 <= i < j < |Distinct(s)| ==> IndexOf(s, Distinct(s)[i]) < IndexOf(s, Distinct(s)[j])
  }

  lemma {:induction false} DistinctOrderStep<T>(t: seq<T>, y: T)
    requires FirstOccurrenceOrdered(t)
    ensures FirstOccurrenceOrdered(t + [y])
  {
    var s := t + [y];
    var d := Distinct(t);
    assert s[..|t|] == t;
    assert Distinct(s) == if y in d then d else d + [y];
    forall x | x in t ensures IndexOf(s, x) == IndexOf(t, x) {
      IndexOfPrefix(t, [y], x);
    }
    if y !in d {
      assert y !in t;
      forall i | 0 <= i < |d| ensures IndexOf(s, d[i]) < IndexOf(s, y) {
        assert d[i] in t;
      }
    }
  }

  lemma {:induction false} IndexOfPrefix<T>(a: seq<T>, b: seq<T>, x: T)
    requires x in a
    ensures IndexOf(a + b, x) == IndexOf(a, x)
  {
    if a[0] != x {
      assert (a + b)[1..] == a[1..] + b;
      IndexOfPrefix(a[1..], b, x);
    }
  }

  // ------------------------------------------------------------- sorting

  /** Inserts `x` after every element it does not strictly precede; `before(a, b)`
      holds when the comparator puts `a` strictly before `b` (a JavaScript
      comparator returning a negative number). */
  function Insert<T>(t: seq<T>, x: T, before: (T, T) -> bool): (r: seq<T>)
    ensures multiset(r) == multiset(t) + multiset{x}
    ensures |r| == |t| + 1
  {
    if t == [] then [x]
    else if before(x, t[0]) then [x] + t
    else
      assert t == [t[0]] + t[1..];
      [t[0]] + Insert(t[1..], x, before)
  }

  /** `Array.prototype.sort` with a comparator, as a stable insertion sort. */
  function SortBy<T>(s: seq<T>, before: (T, T) -> bool): (r: seq<T>)
    ensures multiset(r) == multiset(s) && |r| == |s|
  {
    if s == [] then []
    else
      var n := |s| - 1;
      assert s == s[..n] + [s[n]];
      Insert(SortBy(s[..n], before), s[n], before)
  }

  ghost predicate Sorted<T>(s: seq<T>, before: (T, T) -> bool) {
    forall i, j :: 0 <= i < j < |s| ==> !before(s[j], s[i])
  }

  /** `before` is irreflexive-asymmetric and transitive on the elements of `s`. */
  ghost predicate StrictOrderOn<T>(s: seq<T>, before: (T, T) -> bool) {
    && (forall a, b | a in s && b in s :: before(a, b) ==> !before(b, a))
    && (forall a, b, c | a in s && b in s && c in s :: before(a, b) && before(b, c) ==> before(a, c))
  }

  /** Additionally, "neither precedes the other" is transitive: a consistent comparator. */
  ghost predicate StrictWeakOrderOn<T>(s: seq<T>, before: (T, T) -> bool) {
    && StrictOrderOn(s, before)
    && (forall a, b, c | a in s && b in s && c in s :: !before(a, b) && !before(b, c) ==> !before(a, c))
  }

  /** Every element of `t` is one of `dom`. */
  ghost predicate Within<T>(t: seq<T>, dom: seq<T>) {
    forall j :: 0 <= j < |t| ==> t[j] in dom
  }

  lemma {:induction false} InsertSorted<T>(t: seq<T>, x: T, before: (T, T) -> bool, dom: seq<T>)
    requires Sorted(t, before)
    requires StrictOrderOn(dom, before) && Within(t, dom) && x in dom
    ensures Sorted(Insert(t, x, before), before)
  {
    var r := Insert(t, x, before);
    if t == [] {
    } else if before(x, t[0]) {
      forall i, j | 0 <= i < j < |r| ensures !before(r[j], r[i]) {
        if i == 0 {
          assert r[j] == t[j - 1] && t[j - 1] in dom && t[0] in dom;
          if j - 1 > 0 {
            assert !before(t[j - 1], t[0]);
          }
        }
      }
    } else {
      var rest := Insert(t[1..], x, before);
      InsertSorted(t[1..], x, before, dom);
      forall j | 0 < j < |r| ensures !before(r[j], r[0]) {
        assert r[j] in multiset(rest);
        assert r[j] == x || r[j] in t[1..];
      }
    }
  }

  lemma {:induction false} SortBySortedWithin<T>(s: seq<T>, before: (T, T) -> bool, dom: seq<T>)
    requires StrictOrderOn(dom, before) && Within(s, dom)
    ensures Sorted(SortBy(s, before), before)
    ensures Within(SortBy(s, before), dom)
  {
    if s != [] {
      var n := |s| - 1;
      SortBySortedWithin(s[..n], before, dom);
      var t := SortBy(s[..n], before);
      InsertSorted(t, s[n], before, dom);
      var r := SortBy(s, before);
      forall j | 0 <= j < |r| ensures r[j] in dom {
        assert r[j] in multiset(t) + multiset{s[n]};
      }
    }
  }

  lemma SortBySorted<T>(s: seq<T>, before: (T, T) -> bool)
    requires StrictOrderOn(s, before)
    ensures Sorted(SortBy(s, before), before)
  {
    SortBySortedWithin(s, before, s);
  }

  lemma {:induction false} FilterPrepend<T>(a: T, t: seq<T>, p: T -> bool)
    ensures Filter([a] + t, p) == (if p(a) then [a] else []) + Filter(t, p)
  {
    FilterConcat([a], t, p);
    assert [a][..0] == [];
    assert Filter([a], p) == Filter([], p) + (if p(a) then [a] else []);
  }

  /** No two members of `p`'s class, within `dom`, are ordered. */
  ghost predicate Unordered<T>(p: T -> bool, before: (T, T) -> bool, dom: seq<T>) {
    forall a, b | a in dom && b in dom && p(a) && p(b) :: !before(a, b)
  }

  /** When `x` precedes the head of a sorted list, no element of the list is in
      `x`'s class. */
  lemma {:induction false} ClassAbsentAfter<T>(t: seq<T>, x: T, before: (T, T) -> bool, p: T -> bool, dom: seq<T>)
    requires t != [] && before(x, t[0]) && p(x)
    requires Sorted(t, before)
    requires StrictWeakOrderOn(dom, before) && Within(t, dom) && x in dom
    requires Unordered(p, before, dom)
    ensures forall j :: 0 <= j < |t| ==> !p(t[j])
  {
    forall j | 0 <= j < |t| ensures !p(t[j]) {
      assert t[j] in dom && t[0] in dom;
      if j > 0 {
        assert !before(t[j], t[0]);
      }
    }
  }

  /** Inserting `x` into a sorted list keeps the other elements of `x`'s class
      (elements no pair of which is ordered) in front of it. */
  lemma {:induction false} InsertFilter<T>(t: seq<T>, x: T, before: (T, T) -> bool, p: T -> bool, dom: seq<T>)
    requires Sorted(t, before)
    requires StrictWeakOrderOn(dom, before) && Within(t, dom) && x in dom
    requires Unordered(p, before, dom)
    ensures Filter(Insert(t, x, before), p) == Filter(t, p) + (if p(x) then [x] else [])
  {
    if t == [] {
      assert Insert(t, x, before) == [x];
      FilterPrepend(x, [], p);
    } else if before(x, t[0]) {
      InsertFilterFront(t, x, before, p, dom);
    } else {
      SortedTail(t, before, dom);
      InsertFilter(t[1..], x, before, p, dom);
      InsertFilterCons(t[0], t[1..], x, before, p);
      assert [t[0]] + t[1..] == t;
    }
  }

  /** The case of `InsertFilter` where `x` goes in front. */
  lemma {:induction false} InsertFilterFront<T>(t: seq<T>, x: T, before: (T, T) -> bool, p: T -> bool, dom: seq<T>)
    requires t != [] && before(x, t[0])
    requires Sorted(t, before)
    requires StrictWeakOrderOn(dom, before) && Within(t, dom) && x in dom
    requires Unordered(p, before, dom)
    ensures Filter(Insert(t, x, before), p) == Filter(t, p) + (if p(x) then [x] else [])
  {
    FilterPrepend(x, t, p);
    if p(x) {
      ClassAbsentAfter(t, x, before, p, dom);
      FilterNone(t, p);
    }
  }

  lemma {:induction false} SortedTail<T>(t: seq<T>, before: (T, T) -> bool, dom: seq<T>)
    requires t != [] && Sorted(t, before) && Within(t, dom)
    ensures Sorted(t[1..], before) && Within(t[1..], dom)
  {
  }

  /** The step of `InsertFilter` past a head that `x` does not precede. */
  lemma {:induction false} InsertFilterCons<T>(h: T, u: seq<T>, x: T, before: (T, T) -> bool, p: T -> bool)
    requires !before(x, h)
    requires Filter(Insert(u, x, before), p) == Filter(u, p) + (if p(x) then [x] else [])
    ensures Filter(Insert([h] + u, x, before), p) == Filter([h] + u, p) + (if p(x) then [x] else [])
  {
    var rest := Insert(u, x, before);
    assert ([h] + u)[1..] == u;
    assert Insert([h] + u, x, before) == [h] + rest;
    FilterPrepend(h, rest, p);
    FilterPrepend(h, u, p);
  }

  lemma {:induction false} SortByStableWithin<T>(s: seq<T>, before: (T, T) -> bool, p: T -> bool, dom: seq<T>)
    requires StrictWeakOrderOn(dom, before) && Within(s, dom)
    requires Unordered(p, before, dom)
    ensures Filter(SortBy(s, before), p) == Filter(s, p)
  {
    if s != [] {
      var n := |s| - 1;
      SortByStableWithin(s[..n], before, p, dom);
      SortBySortedWithin(s[..n], before, dom);
      InsertFilter(SortBy(s[..n], before), s[n], before, p, dom);
    }
  }

  /** The sort is stable: the members of a class of mutually unordered elements
      keep their input order. */
  lemma SortByStable<T>(s: seq<T>, before: (T, T) -> bool, p: T -> bool)
    requires StrictWeakOrderOn(s, before)
    requires Unordered(p, before, s)
    ensures Filter(SortBy(s, before), p) == Filter(s, p)
  {
    SortByStableWithin(s, before, p, s);
  }

  lemma {:induction false} FilterNone<T>(s: seq<T>, p: T -> bool)
    requires forall j :: 0 <= j < |s| ==> !p(s[j])
    ensures Filter(s, p) == []
  {
    if s != [] {
      var n := |s| - 1;
      assert forall j :: 0 <= j < n ==> !p(s[..n][j]);
      FilterNone(s[..n], p);
    }
  }

  /** Lexicographic order on strings by character code (`Array.prototype.sort`
      without a comparator). */
  predicate StringLess(a: string, b: string) {
    if a == [] then b != []
    else if b == [] then false
    else if a[0] != b[0] then a[0] < b[0]
    else StringLess(a[1..], b[1..])
  }

  lemma {:induction false} StringLessAsymmetric(a: string, b: string)
    ensures StringLess(a, b) ==> !StringLess(b, a)
  {
    if a != [] && b != [] && a[0] == b[0] {
      StringLessAsymmetric(a[1..], b[1..]);
    }
  }

  lemma {:induction false} StringLessTransitive(a: string, b: string, c: string)
    requires StringLess(a, b) && StringLess(b, c)
    ensures StringLess(a, c)
  {
    if a != [] && b != [] && c != [] && a[0] == b[0] && b[0] == c[0] {
      StringLessTransitive(a[1..], b[1..], c[1..]);
    }
  }

  lemma {:induction false} StringLessTotal(a: string, b: string)
    ensures a == b || StringLess(a, b) || StringLess(b, a)
  {
    if a != [] && b != [] && a[0] == b[0] {
      StringLessTotal(a[1..], b[1..]);
      if a[1..] == b[1..] {
        assert a == [a[0]] + a[1..] && b == [b[0]] + b[1..];
      }
    }
  }

  lemma StringLessIsStrictOrder(s: seq<string>)
    ensures StrictOrderOn(s, StringLess)
  {
    forall a, b | a in s && b in s ensures StringLess(a, b) ==> !StringLess(b, a) {
      StringLessAsymmetric(a, b);
    }
    forall a, b, c | a in s && b in s && c in s && StringLess(a, b) && StringLess(b, c)
      ensures StringLess(a, c)
    {
      StringLessTransitive(a, b, c);
    }
  }
}

/** Own-key enumeration order of a plain object (`Object.keys`,
    `Object.entries`): keys that are array indices first, in ascending numeric
    order, then the other keys in order of insertion. */
module JsObject {
  import opened JsString
  import opened JsArray

  /** A canonical decimal numeral below 2^32 - 1, such as "0" or "42". */
  predicate IsArrayIndex(k: string) {
    && k != []
    && (forall i :: 0 <= i < |k| ==> '0' <= k[i] <= '9')
    && (k[0] != '0' || |k| == 1)
    && DigitsValue(k, 10) < 0xFFFF_FFFF
  }

  predicate NotArrayIndex(k: string) {
    !IsArrayIndex(k)
  }

  predicate SmallerIndex(a: string, b: string) {
    DigitsValue(a, 10) < DigitsValue(b, 10)
  }

  /** The order in which the keys, inserted in the order `inserted`, are enumerated. */
  function PropertyOrder(inserted: seq<string>): (r: seq<string>)
    ensures multiset(r) == multiset(inserted)
  {
    var indices := Filter(inserted, IsArrayIndex);
    var others := Filter(inserted, NotArrayIndex);
    FilterSplits(inserted, IsArrayIndex, NotArrayIndex);
    SortBy(indices, SmallerIndex) + others
  }

  /** With no array-index key, enumeration follows insertion order. */
  lemma PropertyOrderIsInsertionOrder(inserted: seq<string>)
    requires forall i :: 0 <= i < |inserted| ==> !IsArrayIndex(inserted[i])
    ensures PropertyOrder(inserted) == inserted
  {
    FilterNone(inserted, IsArrayIndex);
    FilterAll(inserted, NotArrayIndex);
  }

  /** Array-index keys come out first and in ascending numeric order. */
  lemma PropertyOrderIndicesFirst(inserted: seq<string>)
    ensures var r := PropertyOrder(inserted);
      forall i, j :: 0 <= i < j < |r| && IsArrayIndex(r[j]) ==>
        IsArrayIndex(r[i]) && DigitsValue(r[i], 10) <= DigitsValue(r[j], 10)
  {
    var indices := Filter(inserted, IsArrayIndex);
    var sorted := SortBy(indices, SmallerIndex);
    var others := Filter(inserted, NotArrayIndex);
    SortBySorted(indices, SmallerIndex);
    forall x | x in sorted ensures IsArrayIndex(x) {
      assert x in multiset(indices);
    }
  }
}
