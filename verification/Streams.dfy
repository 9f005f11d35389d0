// Character data as the programs see it: std::string, std::istream over an asio::streambuf, and numbers.
module Streams {
  import opened Wrappers

  const CRLF: string := "\r\n"
  const BLANK_LINE: string := "\r\n\r\n"

  predicate IsSpace(c: char) {
    c == ' ' || 9 <= c as int <= 13
  }

  predicate SpaceFree(s: string) {
    forall i | 0 <= i < |s| :: !IsSpace(s[i])
  }

  // ---- Searching ----

  predicate Occurs(s: string, pat: string, i: int) {
    0 <= i && i + |pat| <= |s| && s[i..i + |pat|] == pat
  }

  // The index of the first occurrence of a pattern, or -1.
  function Find(s: string, pat: string): (i: int)
    ensures -1 <= i
    ensures i >= 0 ==> Occurs(s, pat, i)
    ensures forall j | 0 <= j && (i < 0 || j < i) :: !Occurs(s, pat, j)
    decreases |s|
  {
    OccursAtFront(s, pat);
    if pat <= s then 0
    else if s == "" then -1
    else
      OccursLater(s, pat);
      var i := Find(s[1..], pat);
      if i < 0 then -1 else i + 1
  }

  lemma OccursAtFront(s: string, pat: string)
    ensures Occurs(s, pat, 0) <==> pat <= s
  {}

  lemma OccursLater(s: string, pat: string)
    requires s != ""
    ensures forall j | 1 <= j :: Occurs(s, pat, j) <==> Occurs(s[1..], pat, j - 1)
  {
    forall j | 1 <= j ensures Occurs(s, pat, j) <==> Occurs(s[1..], pat, j - 1) {
      if j + |pat| <= |s| {
        assert s[1..][j - 1..j - 1 + |pat|] == s[j..j + |pat|];
      }
    }
  }

  lemma FindIs(s: string, pat: string, i: nat)
    requires Occurs(s, pat, i) && forall j | 0 <= j < i :: !Occurs(s, pat, j)
    ensures Find(s, pat) == i
  {}

  lemma FindHas(s: string, pat: string, i: nat)
    requires Occurs(s, pat, i)
    ensures 0 <= Find(s, pat) <= i
  {}

  lemma OccursInFront(s: string, pat: string, i: nat, k: nat)
    requires Occurs(s, pat, i) && i + |pat| <= k <= |s|
    ensures Occurs(s[..k], pat, i)
  {
    assert s[..k][i..i + |pat|] == s[i..i + |pat|];
  }

  lemma CrlfAt(s: string, i: nat)
    ensures Occurs(s, CRLF, i) <==> i + 2 <= |s| && s[i] == '\r' && s[i + 1] == '\n'
  {
    if i + 2 <= |s| {
      var t := s[i..i + 2];
      assert t[0] == s[i] && t[1] == s[i + 1];
    }
  }

  lemma BlankAt(s: string, i: nat)
    ensures Occurs(s, BLANK_LINE, i) <==> i + 4 <= |s| && Occurs(s, CRLF, i) && Occurs(s, CRLF, i + 2)
  {
    if i + 4 <= |s| {
      var t := s[i..i + 4];
      assert t[..2] == s[i..i + 2] && t[2..] == s[i + 2..i + 4];
      assert BLANK_LINE[..2] == CRLF && BLANK_LINE[2..] == CRLF;
      assert t == t[..2] + t[2..];
    }
  }

  // How many characters come before the first c; the whole length if there is none.
  function UpTo(s: string, c: char): (n: nat)
    ensures n <= |s|
    ensures c !in s[..n]
    ensures n < |s| ==> s[n] == c
  {
    if s == "" || s[0] == c then 0 else 1 + UpTo(s[1..], c)
  }

  lemma {:induction false} UpToIs(s: string, c: char, n: nat)
    requires n <= |s| && c !in s[..n] && (n < |s| ==> s[n] == c)
    ensures UpTo(s, c) == n
  {
    if n > 0 {
      assert s[0] == s[..n][0];
      assert s[1..][..n - 1] == s[..n][1..];
      UpToIs(s[1..], c, n - 1);
    }
  }

  lemma {:induction false} UpToAtMost(s: string, c: char, n: nat)
    requires n < |s| && s[n] == c
    ensures UpTo(s, c) <= n
  {
    if n > 0 && s[0] != c {
      UpToAtMost(s[1..], c, n - 1);
    }
  }

  // ---- std::istream ----

  // What is left to read, and whether the stream is still good.
  datatype IStream = IStream(buf: string, good: bool)

  // std::getline: on a stream that is no longer good the target keeps its value.
  function GetLine(st: IStream, delim: char, target: string): (IStream, string) {
    if !st.good then (st, target)
    else
      var n := UpTo(st.buf, delim);
      if n == |st.buf| then (IStream("", false), st.buf) else (IStream(st.buf[n + 1..], true), st.buf[..n])
  }

  // istream::get: drops one character.
  function Get(st: IStream): IStream {
    if !st.good then st
    else if st.buf == "" then IStream("", false)
    else IStream(st.buf[1..], true)
  }

  function SkipSpace(s: string): (r: string)
    ensures r != "" ==> !IsSpace(r[0])
  {
    if s != "" && IsSpace(s[0]) then SkipSpace(s[1..]) else s
  }

  lemma {:induction false} SkipSpaceSuffix(s: string)
    ensures var t := SkipSpace(s); |t| <= |s| && t == s[|s| - |t|..]
  {
    if s != "" && IsSpace(s[0]) {
      SkipSpaceSuffix(s[1..]);
    }
  }

  predicate AllSpace(s: string) {
    forall i | 0 <= i < |s| :: IsSpace(s[i])
  }

  lemma {:induction false} SkippedIsSpace(s: string) returns (space: string)
    ensures AllSpace(space) && s == space + SkipSpace(s)
  {
    if s != "" && IsSpace(s[0]) {
      var more := SkippedIsSpace(s[1..]);
      space := [s[0]] + more;
      assert s == [s[0]] + s[1..];
    } else {
      space := "";
    }
  }

  lemma {:induction false} SkipsSpaces(space: string, s: string)
    requires AllSpace(space)
    ensures SkipSpace(space + s) == SkipSpace(s)
  {
    if space == "" {
      assert space + s == s;
    } else {
      assert (space + s)[1..] == space[1..] + s;
      SkipsSpaces(space[1..], s);
    }
  }

  lemma {:induction false} SkipSpaceExtends(s: string, more: string)
    requires SkipSpace(s) != ""
    ensures SkipSpace(s + more) == SkipSpace(s) + more
  {
    if IsSpace(s[0]) {
      assert (s + more)[1..] == s[1..] + more;
      SkipSpaceExtends(s[1..], more);
    }
  }

  function TokenLength(s: string): (n: nat)
    ensures n <= |s| && SpaceFree(s[..n])
    ensures n < |s| ==> IsSpace(s[n])
  {
    if s == "" || IsSpace(s[0]) then 0 else 1 + TokenLength(s[1..])
  }

  // operator>> on a string: skips white space, and leaves the target alone if nothing else is left.
  function ReadToken(st: IStream, target: string): (IStream, string) {
    if !st.good then (st, target)
    else
      var s := SkipSpace(st.buf);
      if s == "" then (IStream("", false), target)
      else var n := TokenLength(s); (IStream(s[n..], n < |s|), s[..n])
  }

  // A token that ends at a white-space character is read as it stands.
  lemma ReadTokenIs(token: string, rest: string, target: string)
    requires token != "" && SpaceFree(token) && rest != "" && IsSpace(rest[0])
    ensures ReadToken(IStream(token + rest, true), target) == (IStream(rest, true), token)
    ensures ReadToken(IStream(" " + token + rest, true), target) == (IStream(rest, true), token)
  {
    var s := token + rest;
    assert s[0] == token[0] && s[|token|] == rest[0];
    assert s[..|token|] == token && s[|token|..] == rest;
    TokenLengthIs(s, |token|);
    assert SkipSpace(s) == s;
    var spaced := " " + token + rest;
    assert spaced[1..] == s;
    assert SkipSpace(spaced) == SkipSpace(s);
  }

  // So is the last token of the stream, which then has reached its end.
  lemma ReadLastTokenIs(token: string, target: string)
    requires token != "" && SpaceFree(token)
    ensures ReadToken(IStream(" " + token, true), target) == (IStream("", false), token)
  {
    assert token[..|token|] == token && token[|token|..] == "";
    TokenLengthIs(token, |token|);
    var spaced := " " + token;
    assert spaced[1..] == token && SkipSpace(token) == token;
    assert SkipSpace(spaced) == token;
  }

  // A token that ends at a white-space character is the same whatever follows.
  lemma ReadTokenExtends(s: string, more: string, target: string)
    requires ReadToken(IStream(s, true), target).0.good
    ensures var (rest, token) := ReadToken(IStream(s, true), target);
      && |rest.buf| <= |s| && rest.buf == s[|s| - |rest.buf|..]
      && ReadToken(IStream(s + more, true), target) == (IStream(rest.buf + more, true), token)
  {
    var t := SkipSpace(s);
    SkipSpaceSuffix(s);
    SkipSpaceExtends(s, more);
    TokenExtends(t, more, TokenLength(t));
  }

  lemma TokenExtends(t: string, more: string, n: nat)
    requires n == TokenLength(t) < |t|
    ensures var all := t + more; TokenLength(all) == n && all[..n] == t[..n] && all[n..] == t[n..] + more
  {
    var all := t + more;
    assert all[..n] == t[..n] && all[n] == t[n];
    TokenLengthIs(all, n);
  }

  predicate EndsLine(s: string) {
    |s| >= 2 && s[|s| - 2] == '\r' && s[|s| - 1] == '\n'
  }

  // Before a line end a token is found complete, or there is none.
  lemma ReadTokenInLine(s: string, target: string)
    requires EndsLine(s)
    ensures var (rest, token) := ReadToken(IStream(s, true), target);
      if rest.good then token != "" && EndsLine(rest.buf) else token == target
  {
    var t := SkipSpace(s);
    SkipSpaceSuffix(s);
    if t != "" {
      assert t[|t| - 1] == s[|s| - 1];
      assert |t| >= 2 && t[|t| - 2] == s[|s| - 2];
      TokenLengthAtMost(t, |t| - 2);
    }
  }

  lemma {:induction false} TokenLengthAtMost(s: string, n: nat)
    requires n < |s| && IsSpace(s[n])
    ensures TokenLength(s) <= n
  {
    if n > 0 && !IsSpace(s[0]) {
      TokenLengthAtMost(s[1..], n - 1);
    }
  }

  lemma {:induction false} TokenLengthIs(s: string, n: nat)
    requires n <= |s| && SpaceFree(s[..n]) && (n < |s| ==> IsSpace(s[n]))
    ensures TokenLength(s) == n
  {
    if n > 0 {
      assert s[0] == s[..n][0];
      assert s[1..][..n - 1] == s[..n][1..];
      TokenLengthIs(s[1..], n - 1);
    }
  }

  // ---- Numbers ----

  const ULONG_RANGE: nat := 0x1_0000_0000_0000_0000   // unsigned long is 64 bits wide

  predicate IsDigit(c: char) {
    '0' <= c <= '9'
  }

  predicate AllDigits(s: string) {
    forall i | 0 <= i < |s| :: IsDigit(s[i])
  }

  function DigitCount(s: string): (n: nat)
    ensures n <= |s| && AllDigits(s[..n])
    ensures n < |s| ==> !IsDigit(s[n])
  {
    if s == "" || !IsDigit(s[0]) then 0 else 1 + DigitCount(s[1..])
  }

  function Value(s: string): nat
    requires AllDigits(s)
  {
    if s == "" then 0 else 10 * Value(s[..|s| - 1]) + (s[|s| - 1] as int - '0' as int)
  }

  // std::stoul; None is either of the two exceptions it throws.
  function Stoul(s: string): Option<nat> {
    var t := SkipSpace(s);
    var u := if t != "" && (t[0] == '-' || t[0] == '+') then t[1..] else t;
    var digits := u[..DigitCount(u)];
    if digits == "" || Value(digits) >= ULONG_RANGE then None
    else if t[0] == '-' then Some((ULONG_RANGE - Value(digits)) % ULONG_RANGE)
    else Some(Value(digits))
  }

  // std::to_string
  function ToDecimal(n: nat): (s: string)
    ensures s != "" && AllDigits(s) && Value(s) == n
  {
    var c := ('0' as int + n % 10) as char;
    if n < 10 then [c]
    else
      var s := ToDecimal(n / 10);
      assert (s + [c])[..|s|] == s;
      s + [c]
  }

  lemma StoulOfToDecimal(n: nat)
    requires n < 0x1_0000_0000_0000_0000
    ensures Stoul(ToDecimal(n)) == Some(n)
    ensures Stoul(" " + ToDecimal(n)) == Some(n)
  {
    var s := ToDecimal(n);
    assert IsDigit(s[0]) && !IsSpace(s[0]);
    assert (" " + s)[1..] == s;
    var k := DigitCount(s);
    assert k == |s| && s[..k] == s;
  }

  // A sign is taken into account, what follows the digits is not, and too large a number is an exception.
  lemma StoulSigned(n: nat, rest: string)
    requires rest != "" ==> !IsDigit(rest[0])
    ensures var s := ToDecimal(n) + rest;
      if n < 0x1_0000_0000_0000_0000 then
        && Stoul(s) == Some(n) && Stoul("+" + s) == Some(n)
        && Stoul("-" + s) == Some(if n == 0 then 0 else 0x1_0000_0000_0000_0000 - n)
      else Stoul(s) == None && Stoul("+" + s) == None && Stoul("-" + s) == None
  {
    var d := ToDecimal(n);
    var s := d + rest;
    DigitsFirst(d, rest);
    StoulOfDigits(s, s, d);
    SignedOfDigits("+", s, d);
    SignedOfDigits("-", s, d);
  }

  lemma DigitsFirst(d: string, rest: string)
    requires AllDigits(d) && (rest != "" ==> !IsDigit(rest[0]))
    ensures (d + rest)[..DigitCount(d + rest)] == d
  {
    var s := d + rest;
    assert s[..|d|] == d;
    DigitCountIs(s, |d|);
  }

  lemma SignedOfDigits(sign: string, u: string, d: string)
    requires sign == "+" || sign == "-"
    requires d != "" && AllDigits(d) && u[..DigitCount(u)] == d
    ensures Stoul(sign + u) == if Value(d) >= ULONG_RANGE then None
                               else if sign == "-" then Some((ULONG_RANGE - Value(d)) % ULONG_RANGE)
                               else Some(Value(d))
  {
    var t := sign + u;
    assert t[0] == sign[0] && t[1..] == u;
    StoulOfDigits(t, u, d);
  }

  // t is a number u, or a sign and u, and d the digits it starts with.
  lemma StoulOfDigits(t: string, u: string, d: string)
    requires d != "" && AllDigits(d) && u[..DigitCount(u)] == d
    requires t == u || (t != "" && (t[0] == '+' || t[0] == '-') && t[1..] == u)
    ensures Stoul(t) == if Value(d) >= ULONG_RANGE then None
                        else if t[0] == '-' then Some((ULONG_RANGE - Value(d)) % ULONG_RANGE)
                        else Some(Value(d))
  {
    assert u[0] == d[0];
    assert SkipSpace(t) == t;
  }

  lemma {:induction false} DigitCountIs(s: string, n: nat)
    requires n <= |s| && AllDigits(s[..n]) && (n < |s| ==> !IsDigit(s[n]))
    ensures DigitCount(s) == n
  {
    if n > 0 {
      assert s[0] == s[..n][0];
      assert s[1..][..n - 1] == s[..n][1..];
      DigitCountIs(s[1..], n - 1);
    }
  }
}
