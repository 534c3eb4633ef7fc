/** Python 2 text operations the blog relies on: `str.split` on one separator
    character, `int(s)`, `str(n)` and the implicit ASCII encoding of unicode text. */
module PyText {
  import opened Wrappers
  import opened Seqs

  /** `s.split(sep)`: the pieces between occurrences of `sep`, always at least one. */
  function Split(s: string, sep: char): (parts: seq<string>)
    ensures |parts| >= 1
    ensures forall k :: 0 <= k < |parts| ==> sep !in parts[k]
    decreases |s|
  {
    var i := Find(s, sep);
    if i == |s| then [s] else [s[..i]] + Split(s[i + 1..], sep)
  }

  /** `sep.join(parts)`. */
  function Join(parts: seq<string>, sep: char): string
  {
    if |parts| == 0 then ""
    else if |parts| == 1 then parts[0]
    else parts[0] + [sep] + Join(parts[1..], sep)
  }

  /** Splitting a text with no separator yields the text alone. */
  lemma SplitNoSep(s: string, sep: char)
    requires sep !in s
    ensures Split(s, sep) == [s]
  {
  }

  /** Splitting peels off the text before the first separator. */
  lemma SplitCons(a: string, sep: char, b: string)
    requires sep !in a
    ensures Split(a + [sep] + b, sep) == [a] + Split(b, sep)
  {
    var s := a + [sep] + b;
    assert s[|a|] == sep;
    assert s[..|a|] == a;
    assert s[|a| + 1..] == b;
    assert Find(s, sep) == |a|;
  }

  /** Joining the pieces of a split gives the text back. */
  lemma {:induction false} JoinSplit(s: string, sep: char)
    ensures Join(Split(s, sep), sep) == s
    decreases |s|
  {
    var i := Find(s, sep);
    if i == |s| {
      SplitNoSep(s, sep);
    } else {
      var a, b := s[..i], s[i + 1..];
      assert s == a + [sep] + b;
      SplitCons(a, sep, b);
      JoinSplit(b, sep);
      JoinCons(a, Split(b, sep), sep);
    }
  }

  /** Joining peels off the first piece. */
  lemma JoinCons(a: string, rest: seq<string>, sep: char)
    requires |rest| >= 1
    ensures Join([a] + rest, sep) == a + [sep] + Join(rest, sep)
  {
    assert ([a] + rest)[1..] == rest;
  }

  /** Splitting a join of separator-free pieces gives the pieces back. */
  lemma {:induction false} SplitJoin(parts: seq<string>, sep: char)
    requires |parts| >= 1
    requires forall k :: 0 <= k < |parts| ==> sep !in parts[k]
    ensures Split(Join(parts, sep), sep) == parts
  {
    if |parts| == 1 {
      SplitNoSep(parts[0], sep);
    } else {
      SplitJoin(parts[1..], sep);
      SplitCons(parts[0], sep, Join(parts[1..], sep));
    }
  }

  /** Python's `str.isspace` on one byte: space, tab, newline, carriage return, vertical tab, form feed. */
  predicate IsSpace(c: char) {
    c == ' ' || c == '\t' || c == '\n' || c == '\r' || c == '\U{B}' || c == '\U{C}'
  }

  predicate IsDigit(c: char) { '0' <= c <= '9' }

  predicate AllDigits(s: string) {
    forall i :: 0 <= i < |s| ==> IsDigit(s[i])
  }

  /** `s.lstrip()` */
  function StripLeft(s: string): string
    decreases |s|
  {
    if |s| > 0 && IsSpace(s[0]) then StripLeft(s[1..]) else s
  }

  /** `s.rstrip()` */
  function StripRight(s: string): string
    decreases |s|
  {
    if |s| > 0 && IsSpace(s[|s| - 1]) then StripRight(s[..|s| - 1]) else s
  }

  /** The value of a string of decimal digits. */
  function DigitsValue(ds: string): nat
    requires AllDigits(ds)
  {
    if |ds| == 0 then 0
    else 10 * DigitsValue(ds[..|ds| - 1]) + (ds[|ds| - 1] as int - '0' as int)
  }

  /** The whitespace of Python 2's unicode `isspace` (Unicode 5.2): tab to carriage return,
      the separators 0x1C to 0x1F, space, and the Unicode space and line separators. */
  predicate IsUnicodeSpace(c: char) {
    || '\t' <= c <= '\r' || '\U{1C}' <= c <= ' '
    || c == '\U{85}' || c == '\U{A0}' || c == '\U{1680}' || c == '\U{180E}'
    || '\U{2000}' <= c <= '\U{200A}' || c == '\U{2028}' || c == '\U{2029}'
    || c == '\U{202F}' || c == '\U{205F}' || c == '\U{3000}'
  }

  /** How `int(u)` hands one character of a unicode string to the byte-level parser
      (`PyUnicode_EncodeDecimal`): whitespace becomes a space, any other character from 1 to
      255 passes as itself, anything else cannot be converted. */
  function DecimalByte(c: char): (b: Option<char>)
    ensures b.Some? ==> !IsDigit(b.value) || b.value == c
    ensures IsDigit(c) ==> b == Some(c)
  {
    if IsUnicodeSpace(c) then Some(' ')
    else if '\0' < c < '\U{100}' then Some(c)
    else None
  }

  predicate Encodable(s: string) {
    forall i :: 0 <= i < |s| ==> DecimalByte(s[i]).Some?
  }

  /** The byte string the parser sees. */
  function EncodeDecimal(s: string): (b: string)
    requires Encodable(s)
    ensures |b| == |s| && forall i :: 0 <= i < |s| ==> b[i] == DecimalByte(s[i]).value
  {
    seq(|s|, i requires 0 <= i < |s| => DecimalByte(s[i]).value)
  }

  /** The byte-level parser `PyInt_FromString` in base 10: whitespace, an optional sign,
      whitespace again, one or more decimal digits, whitespace; anything else raises
      `ValueError`. */
  function ParseDecimal(b: string): (r: Py<int>)
    ensures r.Raise? ==> r.exc == ValueError
  {
    var t := StripRight(StripLeft(b));
    var signed := |t| > 0 && (t[0] == '-' || t[0] == '+');
    var ds := if signed then StripLeft(t[1..]) else t;
    if |ds| > 0 && AllDigits(ds) then
      var v: int := DigitsValue(ds);
      Ok(if signed && t[0] == '-' then -v else v)
    else Raise(ValueError)
  }

  /** Python 2 `int(u)` on a request parameter or cookie value, which arrive as unicode text:
      the text is converted for the byte-level parser, and a character it cannot convert
      raises `ValueError` (as `UnicodeEncodeError`, a subclass). */
  function PyInt(s: string): (r: Py<int>)
    ensures r.Raise? ==> r.exc == ValueError
  {
    if Encodable(s) then ParseDecimal(EncodeDecimal(s)) else Raise(ValueError)
  }

  /** A character the ASCII codec encodes. */
  predicate IsAsciiChar(c: char) { c as int < 0x80 }

  /** Text Python 2 can pass where a byte string is needed: unicode is encoded implicitly
      with the ASCII codec, and any other character raises `UnicodeEncodeError`. */
  predicate IsAscii(s: string) {
    forall i :: 0 <= i < |s| ==> IsAsciiChar(s[i])
  }

  /** Text is ASCII exactly when both of its parts are. */
  lemma AsciiConcat(a: string, b: string)
    ensures IsAscii(a + b) <==> IsAscii(a) && IsAscii(b)
  {
    if IsAscii(a + b) {
      forall i | 0 <= i < |a| ensures IsAsciiChar(a[i]) { assert a[i] == (a + b)[i]; }
      forall i | 0 <= i < |b| ensures IsAsciiChar(b[i]) { assert b[i] == (a + b)[|a| + i]; }
    }
    if IsAscii(a) && IsAscii(b) {
      forall i | 0 <= i < |a + b| ensures IsAsciiChar((a + b)[i]) {
        if i < |a| { assert (a + b)[i] == a[i]; } else { assert (a + b)[i] == b[i - |a|]; }
      }
    }
  }

  function DigitChar(d: nat): (c: char)
    requires d < 10
    ensures IsDigit(c) && c as int - '0' as int == d
  {
    (d + '0' as int) as char
  }

  /** Python `str(n)` for a natural number: its decimal digits, without leading zeros. */
  function NatToString(n: nat): (s: string)
    ensures |s| >= 1 && AllDigits(s)
    ensures DigitsValue(s) == n
    ensures |s| > 1 ==> s[0] != '0'
  {
    if n < 10 then [DigitChar(n)]
    else
      var s := NatToString(n / 10) + [DigitChar(n % 10)];
      assert s[..|s| - 1] == NatToString(n / 10);
      s
  }

  /** Python `str(n)` for any integer. */
  function IntToString(n: int): (s: string)
    ensures |s| >= 1
    ensures forall i :: 0 <= i < |s| ==> IsDigit(s[i]) || s[i] == '-'
  {
    if n < 0 then "-" + NatToString(-n) else NatToString(n)
  }

  /** `str(n)` is ASCII text. */
  lemma IntToStringAscii(n: int)
    ensures IsAscii(IntToString(n))
  {
    var s := IntToString(n);
    forall i | 0 <= i < |s| ensures IsAsciiChar(s[i]) { assert IsDigit(s[i]) || s[i] == '-'; }
  }

  /** A digit string is untouched by stripping. */
  lemma StripDigits(s: string)
    requires |s| >= 1 && AllDigits(s)
    ensures StripLeft(s) == s
    ensures StripRight(s) == s
  {
  }

  /** Text made of digits and minus signs reaches the byte-level parser unchanged. */
  lemma EncodeDigitsAndSigns(s: string)
    requires forall i :: 0 <= i < |s| ==> IsDigit(s[i]) || s[i] == '-'
    ensures Encodable(s) && EncodeDecimal(s) == s
  {
  }

  /** `int(str(n)) == n`: the decimal rendering of an integer parses back to it. */
  lemma IntRoundTrip(n: int)
    ensures PyInt(IntToString(n)) == Ok(n)
  {
    var s := IntToString(n);
    EncodeDigitsAndSigns(s);
    if n < 0 {
      var ds := NatToString(-n);
      assert !IsSpace(s[0]);
      assert StripLeft(s) == s;
      assert s[|s| - 1] == ds[|ds| - 1];
      assert StripRight(s) == s;
      assert s[1..] == ds;
      StripDigits(ds);
    } else {
      StripDigits(s);
    }
  }

  /** Text with no decimal digit at all never parses as an integer. */
  lemma NoDigitsNoInt(s: string)
    requires forall i :: 0 <= i < |s| ==> !IsDigit(s[i])
    ensures PyInt(s).Raise?
  {
    if Encodable(s) {
      var b := EncodeDecimal(s);
      assert forall i :: 0 <= i < |b| ==> !IsDigit(b[i]);
      var t := StripRight(StripLeft(b));
      StripSubstring(b);
      if |t| > 0 && (t[0] == '-' || t[0] == '+') {
        var ds := StripLeft(t[1..]);
        StripLeftSub(t[1..]);
        if |ds| > 0 {
          assert ds[0] in t[1..];
          assert ds[0] in b;
        }
      } else if |t| > 0 {
        assert t[0] in b;
      }
    }
  }

  /** A run of whitespace. */
  predicate AllUnicodeSpace(s: string) {
    forall i :: 0 <= i < |s| ==> IsUnicodeSpace(s[i])
  }

  /** Leading spaces are stripped up to the first other character. */
  lemma {:induction false} StripLeftSpaces(k: nat, x: string)
    requires |x| > 0 && !IsSpace(x[0])
    ensures StripLeft(Spaces(k) + x) == x
  {
    if k > 0 {
      assert (Spaces(k) + x)[1..] == Spaces(k - 1) + x;
      StripLeftSpaces(k - 1, x);
    } else {
      assert Spaces(k) + x == x;
    }
  }

  /** Trailing spaces are stripped back to the last other character. */
  lemma {:induction false} StripRightSpaces(x: string, k: nat)
    requires |x| > 0 && !IsSpace(x[|x| - 1])
    ensures StripRight(x + Spaces(k)) == x
  {
    var y := x + Spaces(k);
    if k > 0 {
      assert y[..|y| - 1] == x + Spaces(k - 1);
      StripRightSpaces(x, k - 1);
    } else {
      assert y == x;
    }
  }

  function Spaces(k: nat): (s: string)
    ensures |s| == k && forall i :: 0 <= i < k ==> s[i] == ' '
  {
    seq(k, _ => ' ')
  }

  /** The byte-level parser reads whitespace, an optional sign, whitespace, digits and
      whitespace as the signed value of the digits. */
  lemma ParseDecimalReads(p: nat, sign: string, m: nat, ds: string, q: nat)
    requires sign == "+" || sign == "-"
    requires |ds| > 0 && AllDigits(ds)
    ensures ParseDecimal(Spaces(p) + sign + Spaces(m) + ds + Spaces(q)) ==
            Ok(if sign == "-" then -(DigitsValue(ds) as int) else DigitsValue(ds))
  {
    StripSigned(p, sign, m, ds, q);
    ParseSignedDigits(Spaces(p) + sign + Spaces(m) + ds + Spaces(q), sign + Spaces(m) + ds, ds);
  }

  /** Stripping exposes the sign, and the spaces after it are stripped in turn. */
  lemma StripSigned(p: nat, sign: string, m: nat, ds: string, q: nat)
    requires sign == "+" || sign == "-"
    requires |ds| > 0 && AllDigits(ds)
    ensures var t := sign + Spaces(m) + ds;
            StripRight(StripLeft(Spaces(p) + sign + Spaces(m) + ds + Spaces(q))) == t &&
            t[0] == sign[0] && StripLeft(t[1..]) == ds
  {
    var t := sign + Spaces(m) + ds;
    Reassociate(Spaces(p), t, Spaces(q), sign, Spaces(m), ds);
    StripAround(p, t, q);
    AfterSign(sign, m, ds);
  }

  lemma Reassociate(a: string, t: string, c: string, x: string, y: string, z: string)
    requires t == x + y + z
    ensures a + x + y + z + c == a + t + c
  {
  }

  lemma AfterSign(sign: string, m: nat, ds: string)
    requires |sign| == 1 && |ds| > 0 && !IsSpace(ds[0])
    ensures StripLeft((sign + Spaces(m) + ds)[1..]) == ds
  {
    assert (sign + Spaces(m) + ds)[1..] == Spaces(m) + ds;
    StripLeftSpaces(m, ds);
  }

  /** Stripping removes exactly the surrounding spaces. */
  lemma StripAround(p: nat, x: string, q: nat)
    requires |x| > 0 && !IsSpace(x[0]) && !IsSpace(x[|x| - 1])
    ensures StripRight(StripLeft(Spaces(p) + x + Spaces(q))) == x
  {
    assert Spaces(p) + x + Spaces(q) == Spaces(p) + (x + Spaces(q));
    StripLeftSpaces(p, x + Spaces(q));
    StripRightSpaces(x, q);
  }

  /** Once stripping has exposed a sign followed by digits, the parser reads them. */
  lemma ParseSignedDigits(b: string, t: string, ds: string)
    requires StripRight(StripLeft(b)) == t && |t| > 0 && (t[0] == '+' || t[0] == '-')
    requires StripLeft(t[1..]) == ds && |ds| > 0 && AllDigits(ds)
    ensures ParseDecimal(b) == Ok(if t[0] == '-' then -(DigitsValue(ds) as int) else DigitsValue(ds))
  {
  }

  /** The same without a sign. */
  lemma ParseUnsignedReads(p: nat, ds: string, q: nat)
    requires |ds| > 0 && AllDigits(ds)
    ensures ParseDecimal(Spaces(p) + ds + Spaces(q)) == Ok(DigitsValue(ds))
  {
    StripAround(p, ds, q);
    ParseDigits(Spaces(p) + ds + Spaces(q), ds);
  }

  /** Once stripping has exposed digits alone, the parser reads them. */
  lemma ParseDigits(b: string, ds: string)
    requires StripRight(StripLeft(b)) == ds && |ds| > 0 && AllDigits(ds)
    ensures ParseDecimal(b) == Ok(DigitsValue(ds))
  {
    assert IsDigit(ds[0]);
  }

  /** Unicode whitespace reaches the parser as spaces; signs and ASCII digits as themselves. */
  lemma EncodePieces(pre: string, sign: string, mid: string, ds: string, post: string)
    requires AllUnicodeSpace(pre) && AllUnicodeSpace(mid) && AllUnicodeSpace(post)
    requires sign == "" || sign == "+" || sign == "-"
    requires AllDigits(ds)
    ensures var s := pre + sign + mid + ds + post;
            Encodable(s) && EncodeDecimal(s) == Spaces(|pre|) + sign + Spaces(|mid|) + ds + Spaces(|post|)
  {
    var s := pre + sign + mid + ds + post;
    var e := Spaces(|pre|) + sign + Spaces(|mid|) + ds + Spaces(|post|);
    var i0, i1, i2, i3 := |pre|, |pre| + |sign|, |pre| + |sign| + |mid|, |pre| + |sign| + |mid| + |ds|;
    forall i | 0 <= i < |s| ensures DecimalByte(s[i]) == Some(e[i]) {
      if i < i0 { assert s[i] == pre[i]; }
      else if i < i1 { assert s[i] == sign[i - i0] && e[i] == sign[i - i0]; }
      else if i < i2 { assert s[i] == mid[i - i1]; }
      else if i < i3 { assert s[i] == ds[i - i2] && e[i] == ds[i - i2]; }
      else { assert s[i] == post[i - i3]; }
    }
  }

  /** The texts `int()` accepts, and their values: whitespace, an optional sign, whitespace,
      digits, whitespace, where whitespace is any of the unicode separators. */
  lemma PyIntReads(pre: string, sign: string, mid: string, ds: string, post: string)
    requires AllUnicodeSpace(pre) && AllUnicodeSpace(mid) && AllUnicodeSpace(post)
    requires sign == "" || sign == "+" || sign == "-"
    requires |ds| > 0 && AllDigits(ds)
    ensures PyInt(pre + sign + mid + ds + post) ==
            Ok(if sign == "-" then -(DigitsValue(ds) as int) else DigitsValue(ds))
  {
    var s := pre + sign + mid + ds + post;
    var b := Spaces(|pre|) + sign + Spaces(|mid|) + ds + Spaces(|post|);
    EncodePieces(pre, sign, mid, ds, post);
    PyIntOfEncoding(s, b);
    if sign == "" {
      UnsignedEncodingReads(|pre|, |mid|, ds, |post|);
    } else {
      ParseDecimalReads(|pre|, sign, |mid|, ds, |post|);
    }
  }

  /** The shape of a text `int()` accepts: whitespace, an optional sign, whitespace, one or
      more decimal digits, whitespace. */
  predicate IntText(pre: string, sign: string, mid: string, ds: string, post: string) {
    && AllUnicodeSpace(pre) && (sign == "" || sign == "+" || sign == "-") && AllUnicodeSpace(mid)
    && |ds| > 0 && AllDigits(ds) && AllUnicodeSpace(post)
  }

  /** `int()` accepts exactly the texts of that shape: the converse of `PyIntReads`, so any
      other text, such as `"12abc"`, `"5-"` or `"1 2 3"`, raises. */
  lemma PyIntOkShape(s: string)
    ensures PyInt(s).Ok? <==>
            exists pre, sign, mid, ds, post :: IntText(pre, sign, mid, ds, post) && s == pre + sign + mid + ds + post
  {
    if PyInt(s).Ok? {
      AcceptedHasShape(s);
    }
    if exists pre, sign, mid, ds, post :: IntText(pre, sign, mid, ds, post) && s == pre + sign + mid + ds + post {
      var pre, sign, mid, ds, post :| IntText(pre, sign, mid, ds, post) && s == pre + sign + mid + ds + post;
      PyIntReads(pre, sign, mid, ds, post);
    }
  }

  lemma AcceptedHasShape(s: string)
    requires PyInt(s).Ok?
    ensures exists pre, sign, mid, ds, post :: IntText(pre, sign, mid, ds, post) && s == pre + sign + mid + ds + post
  {
    var b := EncodeDecimal(s);
    assert ParseDecimal(b).Ok?;
    var a, i1, i2, e := ParseDecimalShape(b);
    LiftShape(s, b, a, i1, i2, e);
  }

  /** `lstrip` drops a run of leading whitespace. */
  lemma {:induction false} StripLeftSuffix(x: string)
    ensures |StripLeft(x)| <= |x| && StripLeft(x) == x[|x| - |StripLeft(x)|..]
    ensures forall i :: 0 <= i < |x| - |StripLeft(x)| ==> IsSpace(x[i])
    decreases |x|
  {
    if |x| > 0 && IsSpace(x[0]) {
      StripLeftSuffix(x[1..]);
    }
  }

  /** `rstrip` drops a run of trailing whitespace. */
  lemma {:induction false} StripRightPrefix(x: string)
    ensures |StripRight(x)| <= |x| && StripRight(x) == x[..|StripRight(x)|]
    ensures forall i :: |StripRight(x)| <= i < |x| ==> IsSpace(x[i])
    decreases |x|
  {
    if |x| > 0 && IsSpace(x[|x| - 1]) {
      StripRightPrefix(x[..|x| - 1]);
    }
  }

  /** Where the pieces of an accepted byte text lie: whitespace up to `a`, an optional sign up
      to `i1`, whitespace up to `i2`, digits up to `e`, whitespace to the end. */
  lemma ParseDecimalShape(b: string) returns (a: nat, i1: nat, i2: nat, e: nat)
    requires ParseDecimal(b).Ok?
    ensures a <= i1 <= i2 < e <= |b|
    ensures i1 == a || (i1 == a + 1 && (b[a] == '+' || b[a] == '-'))
    ensures forall i :: 0 <= i < a ==> IsSpace(b[i])
    ensures forall i :: i1 <= i < i2 ==> IsSpace(b[i])
    ensures forall i :: i2 <= i < e ==> IsDigit(b[i])
    ensures forall i :: e <= i < |b| ==> IsSpace(b[i])
  {
    a, e := StripBounds(b);
    var t := b[a..e];
    if |t| > 0 && (t[0] == '-' || t[0] == '+') {
      i1 := a + 1;
      i2 := SignedDigits(b, a, e);
    } else {
      i1, i2 := a, a;
      assert |t| > 0 && AllDigits(t);
      assert forall i :: a <= i < e ==> b[i] == t[i - a];
    }
  }

  /** The text that stripping leaves, and the whitespace it removes on either side. */
  lemma StripBounds(b: string) returns (a: nat, e: nat)
    ensures a <= e <= |b| && StripRight(StripLeft(b)) == b[a..e]
    ensures forall i :: 0 <= i < a ==> IsSpace(b[i])
    ensures forall i :: e <= i < |b| ==> IsSpace(b[i])
  {
    var l := StripLeft(b);
    var t := StripRight(l);
    StripLeftSuffix(b);
    StripRightPrefix(l);
    a := |b| - |l|;
    e := a + |t|;
    assert forall i :: e <= i < |b| ==> b[i] == l[i - a];
  }

  /** After an accepted sign at `a`, whitespace runs up to `i2` and digits from there to `e`. */
  lemma SignedDigits(b: string, a: nat, e: nat) returns (i2: nat)
    requires a < e <= |b| && (b[a] == '+' || b[a] == '-')
    requires var ds := StripLeft(b[a..e][1..]); |ds| > 0 && AllDigits(ds)
    ensures a + 1 <= i2 < e
    ensures forall i :: a + 1 <= i < i2 ==> IsSpace(b[i])
    ensures forall i :: i2 <= i < e ==> IsDigit(b[i])
  {
    var u := b[a + 1..e];
    assert b[a..e][1..] == u;
    var ds := StripLeft(u);
    StripLeftSuffix(u);
    i2 := a + 1 + (|u| - |ds|);
    assert forall i :: a + 1 <= i < i2 ==> b[i] == u[i - (a + 1)];
    assert forall i :: i2 <= i < e ==> b[i] == ds[i - i2];
  }

  /** A character encoded as whitespace is unicode whitespace; one encoded as anything but a
      space is itself. */
  lemma DecimalByteBack(c: char)
    requires DecimalByte(c).Some?
    ensures IsSpace(DecimalByte(c).value) ==> IsUnicodeSpace(c)
    ensures DecimalByte(c).value != ' ' ==> DecimalByte(c).value == c
  {
  }

  /** The shape found in the encoding is the shape of the text itself. */
  lemma LiftShape(s: string, b: string, a: nat, i1: nat, i2: nat, e: nat)
    requires Encodable(s) && b == EncodeDecimal(s)
    requires a <= i1 <= i2 < e <= |b|
    requires i1 == a || (i1 == a + 1 && (b[a] == '+' || b[a] == '-'))
    requires forall i :: 0 <= i < a ==> IsSpace(b[i])
    requires forall i :: i1 <= i < i2 ==> IsSpace(b[i])
    requires forall i :: i2 <= i < e ==> IsDigit(b[i])
    requires forall i :: e <= i < |b| ==> IsSpace(b[i])
    ensures IntText(s[..a], s[a..i1], s[i1..i2], s[i2..e], s[e..])
    ensures s == s[..a] + s[a..i1] + s[i1..i2] + s[i2..e] + s[e..]
  {
    forall i | 0 <= i < |s| ensures IsSpace(b[i]) ==> IsUnicodeSpace(s[i])
                            ensures b[i] != ' ' ==> b[i] == s[i] {
      DecimalByteBack(s[i]);
    }
    if i1 == a + 1 {
      assert s[a..i1] == [b[a]];
    } else {
      assert s[a..i1] == "";
    }
    assert s == s[..a] + s[a..i1] + s[i1..i2] + s[i2..e] + s[e..] by {
      assert s[..a] + s[a..i1] == s[..i1];
      assert s[..i1] + s[i1..i2] == s[..i2];
      assert s[..i2] + s[i2..e] == s[..e];
      assert s[..e] + s[e..] == s;
    }
  }

  lemma UnsignedEncodingReads(p: nat, m: nat, ds: string, q: nat)
    requires |ds| > 0 && AllDigits(ds)
    ensures ParseDecimal(Spaces(p) + "" + Spaces(m) + ds + Spaces(q)) == Ok(DigitsValue(ds))
  {
    SpacesJoin(p, m, ds, Spaces(q));
    ParseUnsignedReads(p + m, ds, q);
  }

  /** `int()` of an encodable text is the parse of its encoding. */
  lemma PyIntOfEncoding(s: string, b: string)
    requires Encodable(s) && EncodeDecimal(s) == b
    ensures PyInt(s) == ParseDecimal(b)
  {
  }

  /** Two runs of spaces around nothing are one run. */
  lemma SpacesJoin(j: nat, k: nat, x: string, y: string)
    ensures Spaces(j) + "" + Spaces(k) + x + y == Spaces(j + k) + x + y
  {
    assert Spaces(j) + "" + Spaces(k) == Spaces(j + k);
  }

  /** A space may follow the sign. */
  lemma PyIntSpaceAfterPlus()
    ensures PyInt("+ 5") == Ok(5)
  {
    PyIntReads("", "+", " ", "5", "");
    assert "+ 5" == "" + "+" + " " + "5" + "";
  }

  /** Spaces may surround the sign, and a final newline is whitespace too. */
  lemma PyIntSpaceAfterMinus()
    ensures PyInt(" - 12\n") == Ok(-12)
  {
    PyIntReads(" ", "-", " ", "12", "\n");
    assert " - 12\n" == " " + "-" + " " + "12" + "\n";
  }

  /** A no-break space counts as whitespace. */
  lemma PyIntUnicodeSpace()
    ensures PyInt("\U{A0}7\U{3000}") == Ok(7)
  {
    PyIntReads("\U{A0}", "", "", "7", "\U{3000}");
    assert "\U{A0}7\U{3000}" == "\U{A0}" + "" + "" + "7" + "\U{3000}";
  }

  /** Two signs, a space between digits, and a text without digits are refused. */
  lemma PyIntRejectsExamples()
    ensures PyInt("1 2").Raise? && PyInt("+-5").Raise? && PyInt("").Raise? && PyInt("-").Raise?
  {
    NoDigitsNoInt("");
    NoDigitsNoInt("-");
    var a := "1 2";
    assert EncodeDecimal(a) == a;
    assert StripRight(StripLeft(a)) == a;
    assert a[1] == ' ';
    var b := "+-5";
    assert EncodeDecimal(b) == b;
    assert StripRight(StripLeft(b)) == b;
    assert StripLeft(b[1..]) == b[1..];
    assert b[1] == '-';
  }

  /** Trailing letters or signs and inner spaces are refused. */
  lemma PyIntRejectsTrailing()
    ensures PyInt("12abc").Raise? && PyInt("5-").Raise? && PyInt("1 2 3").Raise?
  {
    UnsignedStray("12abc", 2);
    UnsignedStray("5-", 1);
    UnsignedStray("1 2 3", 1);
  }

  /** An unsigned text that stripping leaves whole fails on its first non-digit. */
  lemma UnsignedStray(x: string, k: nat)
    requires 0 < k < |x| && IsDigit(x[0]) && !IsSpace(x[|x| - 1]) && !IsDigit(x[k])
    requires forall i :: 0 <= i < |x| ==> '\0' < x[i] < '\U{80}' && (IsUnicodeSpace(x[i]) ==> x[i] == ' ')
    ensures PyInt(x).Raise?
  {
    assert EncodeDecimal(x) == x;
    assert StripRight(StripLeft(x)) == x;
  }

  /** Every character left after stripping was in the original text. */
  lemma StripSubstring(s: string)
    ensures forall c :: c in StripRight(StripLeft(s)) ==> c in s
  {
    StripLeftSub(s);
    StripRightSub(StripLeft(s));
  }

  lemma StripLeftSub(s: string)
    ensures forall c :: c in StripLeft(s) ==> c in s
  {
  }

  lemma StripRightSub(s: string)
    ensures forall c :: c in StripRight(s) ==> c in s
  {
  }
}
