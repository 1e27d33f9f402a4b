/** An optional value; `None` stands for JavaScript's `null` (or `NaN` for
    a number). */
module Options {
  datatype Option<T> = None | Some(value: T)
}

/** The small part of JavaScript's string and number built-ins that the
    reservation server relies on: `split`, `trim`, `Number(...)` on digit
    strings, `String(n)`, `padStart`, `startsWith`, `includes` and
    `toLowerCase`. */
module JsText {
  import opened Options

  /** The characters that `String.prototype.trim` removes and that `\s`
      matches in a JavaScript regular expression (WhiteSpace and
      LineTerminator of ECMA-262). */
  predicate IsWhitespace(c: char) {
    c == '\t' || c == '\n' || c == '\U{B}' || c == '\U{C}' || c == '\r' || c == ' '
    || c == '\U{A0}' || c == '\U{1680}' || ('\U{2000}' <= c <= '\U{200A}')
    || c == '\U{2028}' || c == '\U{2029}' || c == '\U{202F}' || c == '\U{205F}'
    || c == '\U{3000}' || c == '\U{FEFF}'
  }

  /** A string made of whitespace only (the empty string included). */
  predicate Blank(s: string) {
    forall i :: 0 <= i < |s| ==> IsWhitespace(s[i])
  }

  /** `s.trimStart()` */
  function TrimStart(s: string): string {
    if s != [] && IsWhitespace(s[0]) then TrimStart(s[1..]) else s
  }

  /** `s.trimEnd()` */
  function TrimEnd(s: string): string {
    if s != [] && IsWhitespace(s[|s| - 1]) then TrimEnd(s[..|s| - 1]) else s
  }

  /** `s.trim()` */
  function Trim(s: string): string {
    TrimEnd(TrimStart(s))
  }

  /** `trimStart` removes a whitespace prefix and stops at the first other
      character. */
  lemma {:induction false} TrimStartDrops(s: string)
    ensures var r := TrimStart(s);
      |r| <= |s| && r == s[|s| - |r|..] && Blank(s[..|s| - |r|])
      && (r == [] || !IsWhitespace(r[0]))
  {
    if s != [] && IsWhitespace(s[0]) {
      TrimStartDrops(s[1..]);
      var r := TrimStart(s[1..]);
      assert s[1..][..|s[1..]| - |r|] == s[1..|s| - |r|];
    }
  }

  /** `trimEnd` of a blank string is empty, and of any other string is not. */
  lemma {:induction false} TrimEndEmptyIffBlank(s: string)
    ensures TrimEnd(s) == [] <==> Blank(s)
  {
    if s != [] && IsWhitespace(s[|s| - 1]) {
      TrimEndEmptyIffBlank(s[..|s| - 1]);
      if Blank(s[..|s| - 1]) {
        assert forall i :: 0 <= i < |s| - 1 ==> s[i] == s[..|s| - 1][i];
      }
    }
  }

  /** `!s.trim()` holds exactly for the strings made of whitespace only. */
  lemma TrimEmptyIffBlank(s: string)
    ensures Trim(s) == [] <==> Blank(s)
  {
    var t := TrimStart(s);
    TrimStartDrops(s);
    TrimEndEmptyIffBlank(t);
    var k := |s| - |t|;
    if t != [] {
      assert t[0] == s[k];
    }
    if Blank(t) {
      assert t == [];
      assert s[..|s|] == s;
    }
  }

  /** `s.split(sep)` for a one-character separator: the pieces between the
      separators, in order; there is always at least one piece. */
  function Split(s: string, sep: char): (parts: seq<string>)
    ensures |parts| >= 1
  {
    if s == [] then [[]]
    else
      var rest := Split(s[1..], sep);
      if s[0] == sep then [[]] + rest
      else [[s[0]] + rest[0]] + rest[1..]
  }

  /** No piece of a split holds the separator. */
  lemma {:induction false} SplitPiecesPlain(s: string, sep: char)
    ensures forall i :: 0 <= i < |Split(s, sep)| ==> sep !in Split(s, sep)[i]
  {
    if s != [] {
      SplitPiecesPlain(s[1..], sep);
      var rest := Split(s[1..], sep);
      SplitCons(s[0], s[1..], sep);
      assert [s[0]] + s[1..] == s;
      if s[0] != sep {
        var parts := Split(s, sep);
        assert parts[0] == [s[0]] + rest[0];
        assert forall i :: 1 <= i < |parts| ==> parts[i] == rest[i];
      }
    }
  }

  /** `parts.join(sep)` */
  function Join(parts: seq<string>, sep: char): string {
    if parts == [] then []
    else if |parts| == 1 then parts[0]
    else parts[0] + [sep] + Join(parts[1..], sep)
  }

  /** Joining the pieces of a split gives the string back. */
  lemma {:induction false} JoinOfSplit(s: string, sep: char)
    ensures Join(Split(s, sep), sep) == s
  {
    if s != [] {
      var rest := Split(s[1..], sep);
      JoinOfSplit(s[1..], sep);
      if s[0] == sep {
        assert s == [sep] + s[1..];
      } else if |rest| == 1 {
        assert s == [s[0]] + s[1..];
      } else {
        assert rest == [rest[0]] + rest[1..];
        assert s == [s[0]] + s[1..];
      }
    }
  }

  /** The pieces of `[c] + t` from the pieces of `t`: a separator starts a
      new piece, any other character joins the first piece. */
  function ConsPiece(c: char, sep: char, parts: seq<string>): seq<string>
    requires |parts| >= 1
  {
    if c == sep then [[]] + parts else [[c] + parts[0]] + parts[1..]
  }

  lemma SplitCons(c: char, t: string, sep: char)
    ensures Split([c] + t, sep) == ConsPiece(c, sep, Split(t, sep))
  {
    assert ([c] + t)[0] == c;
    assert ([c] + t)[1..] == t;
  }

  /** Adding pieces at the end does not disturb the first piece. */
  lemma ConsPieceAppend(c: char, sep: char, left: seq<string>, right: seq<string>)
    requires |left| >= 1
    ensures ConsPiece(c, sep, left + right) == ConsPiece(c, sep, left) + right
  {
    if c != sep {
      assert (left + right)[0] == left[0];
      assert (left + right)[1..] == left[1..] + right;
    }
  }

  /** The pieces `parts` with `a` put in front of the first one. */
  function Grow(a: string, parts: seq<string>): seq<string>
    requires |parts| >= 1
  {
    [a + parts[0]] + parts[1..]
  }

  /** A character other than the separator joins the first piece. */
  lemma ConsGrow(c: char, sep: char, a: string, parts: seq<string>)
    requires c != sep && |parts| >= 1
    ensures ConsPiece(c, sep, Grow(a, parts)) == Grow([c] + a, parts)
  {
    var g := Grow(a, parts);
    assert g[0] == a + parts[0];
    assert g[1..] == parts[1..];
    assert [c] + (a + parts[0]) == [c] + a + parts[0];
  }

  /** One step of SplitAfterPlain: a plain character in front of the text
      joins the first piece. */
  lemma PlainStep(c: char, rest: string, t: string, sep: char)
    requires c != sep
    requires Split(rest + t, sep) == Grow(rest, Split(t, sep))
    ensures Split([c] + rest + t, sep) == Grow([c] + rest, Split(t, sep))
  {
    var parts := Split(t, sep);
    calc {
      Split([c] + rest + t, sep);
      { assert [c] + rest + t == [c] + (rest + t); }
      Split([c] + (rest + t), sep);
      { SplitCons(c, rest + t, sep); }
      ConsPiece(c, sep, Split(rest + t, sep));
      ConsPiece(c, sep, Grow(rest, parts));
      { ConsGrow(c, sep, rest, parts); }
      Grow([c] + rest, parts);
    }
  }

  /** Splitting `a` followed by more text, where `a` holds no separator,
      extends the first piece by `a`. */
  lemma {:induction false} SplitAfterPlain(a: string, t: string, sep: char)
    requires sep !in a
    ensures Split(a + t, sep) == Grow(a, Split(t, sep))
  {
    var parts := Split(t, sep);
    if a != [] {
      SplitAfterPlain(a[1..], t, sep);
      PlainStep(a[0], a[1..], t, sep);
      assert [a[0]] + a[1..] == a;
    } else {
      assert a + t == t;
      assert [] + parts[0] == parts[0];
      assert parts == [parts[0]] + parts[1..];
    }
  }

  /** Splitting pieces that hold no separator, once joined, gives the pieces
      back. */
  lemma {:induction false} SplitOfJoin(parts: seq<string>, sep: char)
    requires |parts| >= 1
    requires forall i :: 0 <= i < |parts| ==> sep !in parts[i]
    ensures Split(Join(parts, sep), sep) == parts
  {
    if |parts| == 1 {
      SplitAfterPlain(parts[0], [], sep);
      assert Split([], sep) == [[]];
      assert parts[0] + [] == parts[0];
    } else {
      var tail := Join(parts[1..], sep);
      SplitOfJoin(parts[1..], sep);
      SplitAfterPlain(parts[0], [sep] + tail, sep);
      assert parts[0] + [sep] + tail == parts[0] + ([sep] + tail);
      assert ([sep] + tail)[1..] == tail;
      assert Split([sep] + tail, sep) == [[]] + Split(tail, sep);
      assert parts[0] + [] == parts[0];
      assert parts == [parts[0]] + parts[1..];
    }
  }

  /** Splitting two texts joined by the separator splits each of them. */
  lemma {:induction false} SplitAtSeparator(a: string, b: string, sep: char)
    ensures Split(a + [sep] + b, sep) == Split(a, sep) + Split(b, sep)
  {
    if a == [] {
      assert a + [sep] + b == [sep] + b;
      SplitCons(sep, b, sep);
      assert Split(a, sep) == [[]];
    } else {
      var t := a[1..] + [sep] + b;
      assert a + [sep] + b == [a[0]] + t;
      assert a == [a[0]] + a[1..];
      SplitAtSeparator(a[1..], b, sep);
      SplitCons(a[0], t, sep);
      SplitCons(a[0], a[1..], sep);
      ConsPieceAppend(a[0], sep, Split(a[1..], sep), Split(b, sep));
    }
  }

  /** A text without the separator is a single piece. */
  lemma SplitWithoutSeparator(s: string, sep: char)
    requires sep !in s
    ensures Split(s, sep) == [s]
  {
    SplitAfterPlain(s, [], sep);
    assert s + [] == s;
    assert Split([], sep) == [[]];
  }

  /** Joining two non-empty runs of pieces puts one separator between them. */
  lemma {:induction false} JoinAppend(a: seq<string>, b: seq<string>, sep: char)
    requires a != [] && b != []
    ensures Join(a + b, sep) == Join(a, sep) + [sep] + Join(b, sep)
  {
    if |a| > 1 {
      JoinAppend(a[1..], b, sep);
      assert (a + b)[1..] == a[1..] + b;
    } else {
      assert (a + b)[1..] == b;
    }
  }

  predicate IsDigit(c: char) {
    '0' <= c <= '9'
  }

  predicate AllDigits(s: string) {
    forall i :: 0 <= i < |s| ==> IsDigit(s[i])
  }

  /** The value of a string of decimal digits; the empty string is 0, as
      `Number("")` is. */
  function DecimalValue(s: string): nat
    requires AllDigits(s)
  {
    if s == [] then 0
    else DecimalValue(s[..|s| - 1]) * 10 + (s[|s| - 1] as int - '0' as int)
  }

  /** `Number(s)` on strings of ASCII digits; `None` stands for `NaN`, which
      this model gives to every other string. */
  function ToNumber(s: string): (r: Option<nat>)
    ensures r.Some? <==> AllDigits(s)
    ensures r.Some? ==> r.value == DecimalValue(s)
  {
    if AllDigits(s) then Some(DecimalValue(s)) else None
  }

  function DigitChar(d: nat): (c: char)
    requires d < 10
    ensures IsDigit(c) && c as int - '0' as int == d
  {
    (d + '0' as int) as char
  }

  /** `String(n)` for a non-negative integer: its decimal digits, with no
      leading zero. */
  function NatToString(n: nat): (s: string)
    ensures AllDigits(s) && |s| >= 1
    ensures DecimalValue(s) == n
    ensures n > 0 ==> s[0] != '0'
  {
    if n < 10 then [DigitChar(n)]
    else
      var s := NatToString(n / 10) + [DigitChar(n % 10)];
      assert s[..|s| - 1] == NatToString(n / 10);
      s
  }

  /** `String(i)` for an integer. */
  function IntToString(i: int): string {
    if i < 0 then "-" + NatToString(-i) else NatToString(i)
  }

  /** `s.padStart(len, [fill])` */
  function PadStart(s: string, len: nat, fill: char): (r: string)
    ensures |r| == if |s| < len then len else |s|
    ensures r[|r| - |s|..] == s
    ensures forall i :: 0 <= i < |r| - |s| ==> r[i] == fill
    decreases len - |s|
  {
    if |s| >= len then s
    else
      var r := PadStart([fill] + s, len, fill);
      assert r[|r| - |s|..] == r[|r| - |s| - 1..][1..];
      assert ([fill] + s)[1..] == s;
      r
  }

  /** `Number` reads back what `String` prints, and reads the empty string
      as 0. */
  lemma NumberOfString(n: nat)
    ensures ToNumber(NatToString(n)) == Some(n)
    ensures ToNumber("") == Some(0)
  {
  }

  /** A number below 100 is printed with at most two digits. */
  lemma ShortNatToString(k: nat)
    requires k < 100
    ensures |NatToString(k)| <= 2
  {
    if k >= 10 {
      assert |NatToString(k / 10)| == 1;
    }
  }

  /** A leading zero does not change the value of a digit string. */
  lemma {:induction false} LeadingZero(s: string)
    requires AllDigits(s)
    ensures AllDigits(['0'] + s) && DecimalValue(['0'] + s) == DecimalValue(s)
  {
    if s != [] {
      LeadingZero(s[..|s| - 1]);
      assert (['0'] + s)[..|s|] == ['0'] + s[..|s| - 1];
    }
  }

  /** Left-padding digits with zeros keeps their value. */
  lemma {:induction false} ZeroPaddingKeepsValue(s: string, len: nat)
    requires AllDigits(s)
    ensures AllDigits(PadStart(s, len, '0'))
    ensures DecimalValue(PadStart(s, len, '0')) == DecimalValue(s)
    decreases len - |s|
  {
    if |s| < len {
      LeadingZero(s);
      ZeroPaddingKeepsValue(['0'] + s, len);
    }
  }

  /** `s.startsWith(prefix)` */
  predicate StartsWith(s: string, prefix: string) {
    |prefix| <= |s| && s[..|prefix|] == prefix
  }

  /** `sub` occurs in `s` at index `k`. */
  ghost predicate OccursAt(s: string, sub: string, k: int) {
    0 <= k <= |s| - |sub| && s[k..k + |sub|] == sub
  }

  /** `s.includes(sub)` */
  predicate Includes(s: string, sub: string)
    decreases |s|
  {
    StartsWith(s, sub) || (s != [] && Includes(s[1..], sub))
  }

  /** `includes` finds exactly the places where `sub` occurs. */
  lemma {:induction false} IncludesIffOccurs(s: string, sub: string)
    ensures Includes(s, sub) <==> exists k :: OccursAt(s, sub, k)
  {
    if s == [] {
      if StartsWith(s, sub) {
        assert OccursAt(s, sub, 0);
      }
      if k :| OccursAt(s, sub, k) {
        assert sub == [] && StartsWith(s, sub);
      }
    } else {
      IncludesIffOccurs(s[1..], sub);
      if Includes(s, sub) {
        if StartsWith(s, sub) {
          assert OccursAt(s, sub, 0);
        } else {
          var k :| OccursAt(s[1..], sub, k);
          assert s[k + 1..k + 1 + |sub|] == s[1..][k..k + |sub|];
          assert OccursAt(s, sub, k + 1);
        }
      }
      if k :| OccursAt(s, sub, k) {
        if k == 0 {
          assert s[..|sub|] == s[0..|sub|];
          assert StartsWith(s, sub);
        } else {
          assert s[1..][k - 1..k - 1 + |sub|] == s[k..k + |sub|];
          assert OccursAt(s[1..], sub, k - 1);
        }
      }
    }
  }

  predicate IsUpperAscii(c: char) {
    'A' <= c <= 'Z'
  }

  /** `s` and `t` differ at most in the case of ASCII letters. */
  predicate SameUpToAsciiCase(s: string, t: string) {
    && |s| == |t|
    && forall i :: 0 <= i < |s| ==>
         || s[i] == t[i]
         || (IsUpperAscii(s[i]) && t[i] as int == s[i] as int + 32)
         || (IsUpperAscii(t[i]) && s[i] as int == t[i] as int + 32)
  }

  /** Lower-casing leaves no ASCII capital, keeps a string that has none,
      and maps strings that differ only in ASCII case to one string. */
  lemma LowerAsciiFolds(s: string, t: string)
    ensures forall i :: 0 <= i < |ToLowerAscii(s)| ==> !IsUpperAscii(ToLowerAscii(s)[i])
    ensures (forall i :: 0 <= i < |s| ==> !IsUpperAscii(s[i])) ==> ToLowerAscii(s) == s
    ensures SameUpToAsciiCase(s, t) ==> ToLowerAscii(s) == ToLowerAscii(t)
  {
  }

  /** `toLowerCase` on the ASCII letters; every other character is kept. */
  function ToLowerAscii(s: string): (r: string)
    ensures |r| == |s|
  {
    seq(|s|, i requires 0 <= i < |s| =>
      if 'A' <= s[i] <= 'Z' then (s[i] as int + 32) as char else s[i])
  }
}
