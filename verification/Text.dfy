/** String operations that the repository's languages share. */
module Text {

  /** Letter case is that of ASCII. */
  function LowerChar(c: char): char {
    if 'A' <= c <= 'Z' then ((c as int) + 32) as char else c
  }

  function Lower(s: string): string {
    seq(|s|, i requires 0 <= i < |s| => LowerChar(s[i]))
  }

  /** White space is that of ASCII. */
  predicate IsBlank(c: char) {
    c == ' ' || '\t' <= c <= '\r'
  }

  function StripLeft(s: string): (t: string)
    ensures |t| <= |s| && (t != "" ==> !IsBlank(t[0]) && t[|t| - 1] == s[|s| - 1])
  {
    if s != "" && IsBlank(s[0]) then StripLeft(s[1..]) else s
  }

  function StripRight(s: string): (t: string)
    ensures |t| <= |s| && (t != "" ==> !IsBlank(t[|t| - 1]) && t[0] == s[0])
  {
    if s != "" && IsBlank(s[|s| - 1]) then StripRight(s[..|s| - 1]) else s
  }

  /** Python's `s.strip()`. */
  function Strip(s: string): (t: string)
    ensures |t| <= |s| && (t != "" ==> !IsBlank(t[0]) && !IsBlank(t[|t| - 1]))
  {
    StripRight(StripLeft(s))
  }

  ghost predicate Blanks(s: string) {
    forall i :: 0 <= i < |s| ==> IsBlank(s[i])
  }

  /** Stripping takes away blanks around the text, and all of them. */
  lemma StripIsExact(s: string) returns (before: string, after: string)
    ensures s == before + Strip(s) + after && Blanks(before) && Blanks(after)
    ensures Strip(s) != "" ==> !IsBlank(Strip(s)[0]) && !IsBlank(Strip(s)[|Strip(s)| - 1])
  {
    before := StripLeftIsExact(s);
    after := StripRightIsExact(StripLeft(s));
    assert before + (Strip(s) + after) == before + Strip(s) + after;
    hide StripLeft, StripRight;
  }

  lemma {:induction false} StripLeftIsExact(s: string) returns (before: string)
    ensures s == before + StripLeft(s) && Blanks(before)
  {
    if s != "" && IsBlank(s[0]) {
      var rest := StripLeftIsExact(s[1..]);
      before := [s[0]] + rest;
      assert s == [s[0]] + s[1..];
    } else {
      before := "";
    }
  }

  lemma {:induction false} StripRightIsExact(s: string) returns (after: string)
    ensures s == StripRight(s) + after && Blanks(after)
  {
    if s != "" && IsBlank(s[|s| - 1]) {
      var rest := StripRightIsExact(s[..|s| - 1]);
      after := rest + [s[|s| - 1]];
      assert s == s[..|s| - 1] + [s[|s| - 1]];
    } else {
      after := "";
    }
  }

  /** So blanks around a text make no difference. */
  lemma {:induction false} StripIgnoresBlanks(before: string, s: string, after: string)
    requires Blanks(before) && Blanks(after)
    ensures Strip(before + s + after) == Strip(s)
    decreases |before| + |after|
  {
    if |before| > 0 {
      assert (before + s + after)[1..] == before[1..] + s + after;
      StripIgnoresBlanks(before[1..], s, after);
    } else if |after| > 0 {
      var n := |after| - 1;
      StripIgnoresBlanks("", s, after[..n]);
      assert "" + s + after == (s + after[..n]) + [after[n]] && "" + s + after[..n] == s + after[..n];
      StripIgnoresOneMore(s + after[..n], after[n]);
      assert before + s + after == "" + s + after;
    } else {
      assert before + s + after == s;
    }
  }

  lemma {:induction false} StripIgnoresOneMore(s: string, c: char)
    requires IsBlank(c)
    ensures Strip(s + [c]) == Strip(s)
  {
    if s == "" {
      assert s + [c] == [c] && [c][1..] == "";
    } else if IsBlank(s[0]) {
      assert (s + [c])[1..] == s[1..] + [c];
      StripIgnoresOneMore(s[1..], c);
    } else {
      assert (s + [c])[..|s|] == s;
    }
  }

  /** The same letters, but for the case of those of ASCII. */
  ghost predicate SameButForCase(s: string, t: string) {
    |s| == |t| && forall i :: 0 <= i < |s| ==>
      || s[i] == t[i]
      || ('A' <= s[i] <= 'Z' && t[i] as int == s[i] as int + 32)
      || ('A' <= t[i] <= 'Z' && s[i] as int == t[i] as int + 32)
  }

  lemma LowerIgnoresExactlyCase(s: string, t: string)
    ensures Lower(s) == Lower(t) <==> SameButForCase(s, t)
    ensures SameButForCase(Lower(s), s) && forall i :: 0 <= i < |s| ==> !('A' <= Lower(s)[i] <= 'Z')
  {
    if Lower(s) == Lower(t) {
      forall i | 0 <= i < |s| ensures LowerChar(s[i]) == LowerChar(t[i]) {
        assert Lower(s)[i] == Lower(t)[i];
      }
    }
  }

  /** `p in s`. */
  predicate Contains(s: string, p: string) {
    |p| <= |s| && (s[..|p|] == p || (s != "" && Contains(s[1..], p)))
  }

  lemma {:induction false} ContainsChars(s: string, p: string, c: char)
    requires Contains(s, p) && c in p
    ensures c in s
  {
    if s[..|p|] == p { assert c in s[..|p|]; } else { ContainsChars(s[1..], p, c); }
  }

  /** A text without `c` does not stretch across a `c`. */
  lemma {:induction false} ContainsAcross(a: string, c: char, b: string, p: string)
    requires p != "" && c !in p
    ensures Contains(a + [c] + b, p) <==> Contains(a, p) || Contains(b, p)
  {
    var s := a + [c] + b;
    if a == "" {
      assert s[1..] == b && s[0] == c;
      if |p| <= |s| { assert s[..|p|][0] == c; }
    } else {
      assert s[1..] == a[1..] + [c] + b;
      ContainsAcross(a[1..], c, b, p);
      if |p| <= |a| { assert s[..|p|] == a[..|p|]; } else if |p| <= |s| { assert s[..|p|][|a|] == c; }
      if Contains(a[1..], p) { assert |p| <= |a|; }
    }
  }

  /** Stripping cannot remove a text without blanks. */
  lemma ContainsInStripped(s: string, p: string)
    requires p != "" && forall i :: 0 <= i < |p| ==> !IsBlank(p[i])
    ensures Contains(Strip(s), p) <==> Contains(s, p)
  {
    ContainsInStripLeft(s, p);
    ContainsInStripRight(StripLeft(s), p);
  }

  lemma {:induction false} ContainsInStripLeft(s: string, p: string)
    requires p != "" && forall i :: 0 <= i < |p| ==> !IsBlank(p[i])
    ensures Contains(StripLeft(s), p) <==> Contains(s, p)
  {
    if s != "" && IsBlank(s[0]) {
      ContainsInStripLeft(s[1..], p);
      ContainsAcross("", s[0], s[1..], p);
      assert "" + [s[0]] + s[1..] == s;
    }
  }

  lemma {:induction false} ContainsInStripRight(s: string, p: string)
    requires p != "" && forall i :: 0 <= i < |p| ==> !IsBlank(p[i])
    ensures Contains(StripRight(s), p) <==> Contains(s, p)
  {
    if s != "" && IsBlank(s[|s| - 1]) {
      var n := |s| - 1;
      ContainsInStripRight(s[..n], p);
      ContainsAcross(s[..n], s[n], "", p);
      assert s[..n] + [s[n]] + "" == s;
    }
  }

  predicate IsDigit(c: char) {
    '0' <= c <= '9'
  }

  predicate AllDigits(s: string) {
    s != "" && forall i :: 0 <= i < |s| ==> IsDigit(s[i])
  }

  function Digit(d: nat): char
    requires d < 10
  {
    (d + '0' as int) as char
  }

  /** `str(n)`. */
  function Decimal(n: nat): string {
    if n < 10 then [Digit(n)] else Decimal(n / 10) + [Digit(n % 10)]
  }

  /** `int(s)` for a string of digits. */
  function Number(s: string): (n: nat)
    requires forall i :: 0 <= i < |s| ==> IsDigit(s[i])
  {
    if s == "" then 0 else assert IsDigit(s[|s| - 1]); Number(s[..|s| - 1]) * 10 + (s[|s| - 1] as int - '0' as int)
  }

  lemma {:induction false} NumberUndoesDecimal(n: nat)
    ensures AllDigits(Decimal(n)) && Number(Decimal(n)) == n
    ensures n > 0 ==> Decimal(n)[0] != '0'
  {
    if n >= 10 {
      NumberUndoesDecimal(n / 10);
      assert Decimal(n)[..|Decimal(n)| - 1] == Decimal(n / 10);
    } else {
      assert Number([]) == 0;
      assert Decimal(n)[..0] == [];
    }
  }

  /** `s.split(sep)` for a single character: never empty; the last piece is what follows the last separator. */
  function Split(s: string, sep: char): (pieces: seq<string>)
    ensures pieces != []
  {
    if s == "" then [""]
    else
      var rest := Split(s[1..], sep);
      if s[0] == sep then [""] + rest else [[s[0]] + rest[0]] + rest[1..]
  }

  lemma {:induction false} SplitWithoutSeparator(s: string, sep: char)
    requires sep !in s
    ensures Split(s, sep) == [s]
  {
    if s != "" {
      SplitWithoutSeparator(s[1..], sep);
      assert [s[0]] + s[1..] == s;
    }
  }

  lemma {:induction false} SplitAfterPiece(piece: string, sep: char, tail: string)
    requires sep !in piece
    ensures Split(piece + [sep] + tail, sep) == [piece] + Split(tail, sep)
  {
    if piece == "" {
      assert piece + [sep] + tail == [sep] + tail && ([sep] + tail)[1..] == tail;
    } else {
      SplitAfterPiece(piece[1..], sep, tail);
      assert (piece + [sep] + tail)[1..] == piece[1..] + [sep] + tail;
      assert [piece[0]] + piece[1..] == piece;
    }
  }
}

/** JavaScript's idea of white space, and the string operations built on it. */
module JsText {

  /** WhiteSpace and LineTerminator of ECMA-262; also what `\s` matches. */
  predicate IsSpace(c: char) {
    var n := c as int;
    || 9 <= n <= 13 || n == 0x20 || n == 0xA0 || n == 0x1680 || 0x2000 <= n <= 0x200A
    || n == 0x2028 || n == 0x2029 || n == 0x202F || n == 0x205F || n == 0x3000 || n == 0xFEFF
  }

  function TrimStart(s: string): (t: string)
    ensures |t| <= |s| && (t != "" ==> !IsSpace(t[0]))
  {
    if s != "" && IsSpace(s[0]) then TrimStart(s[1..]) else s
  }

  function TrimEnd(s: string): (t: string)
    ensures |t| <= |s| && (t != "" ==> !IsSpace(t[|t| - 1]))
  {
    if s != "" && IsSpace(s[|s| - 1]) then TrimEnd(s[..|s| - 1]) else s
  }

  function Trim(s: string): string {
    TrimEnd(TrimStart(s))
  }

  ghost predicate Spaces(s: string) {
    forall i :: 0 <= i < |s| ==> IsSpace(s[i])
  }

  /** Trimming takes away white space around the text, and all of it. */
  lemma TrimIsExact(s: string) returns (before: string, after: string)
    ensures s == before + Trim(s) + after && Spaces(before) && Spaces(after)
    ensures Trim(s) != "" ==> !IsSpace(Trim(s)[0]) && !IsSpace(Trim(s)[|Trim(s)| - 1])
  {
    before := TrimStartIsExact(s);
    after := TrimEndIsExact(TrimStart(s));
    var t := TrimStart(s);
    assert Trim(s) != "" ==> Trim(s)[0] == t[0];
    assert before + (Trim(s) + after) == before + Trim(s) + after;
    hide TrimStart, TrimEnd, IsSpace;
  }

  lemma {:induction false} TrimStartIsExact(s: string) returns (before: string)
    ensures s == before + TrimStart(s) && Spaces(before)
  {
    hide IsSpace;
    if s != "" && IsSpace(s[0]) {
      var rest := TrimStartIsExact(s[1..]);
      before := [s[0]] + rest;
      assert s == [s[0]] + s[1..];
    } else {
      before := "";
    }
  }

  lemma {:induction false} TrimEndIsExact(s: string) returns (after: string)
    ensures s == TrimEnd(s) + after && Spaces(after)
  {
    hide IsSpace;
    if s != "" && IsSpace(s[|s| - 1]) {
      var rest := TrimEndIsExact(s[..|s| - 1]);
      after := rest + [s[|s| - 1]];
      assert s == s[..|s| - 1] + [s[|s| - 1]];
    } else {
      after := "";
    }
  }
}
