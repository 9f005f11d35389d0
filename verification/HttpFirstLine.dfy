// What the words of a byte stream say about its first line (005_http/http_request.cpp, lines 105-124): the
// status line is parsed from what has arrived, and `>>` reads on into the next lines if words are missing.
module HttpFirstLine {
  import opened HttpRequest
  import opened Streams
  import opened Wrappers

  function LineEnd(w: string): nat
    requires Find(w, CRLF) >= 0
  {
    Find(w, CRLF) + 2
  }

  predicate GoodFirstLine(w: string)
    requires Find(w, CRLF) >= 0
  {
    ParseStatusLine(w[..LineEnd(w)]).GoodStatus?
  }

  // The first line has less than two words.
  predicate WordsMissing(line: string) {
    var (stream, version) := ReadToken(IStream(line, true), "");
    version == "" || ReadToken(stream, "").1 == ""
  }

  // A sign or not, and a digit.
  predicate StartsNumber(s: string) {
    s != "" && (IsDigit(s[0]) || ((s[0] == '-' || s[0] == '+') && |s| > 1 && IsDigit(s[1])))
  }

  // The first word of the stream, on whatever line, is the version, and the next one starts with a number.
  predicate LateStatus(w: string) {
    var (stream, version) := ReadToken(IStream(w, true), "");
    version == "HTTP/1.1" && stream.good && StartsNumber(SkipSpace(stream.buf))
  }

  // No part of w that reaches past the first line has a good status line.
  predicate BadThroughout(w: string)
    requires Find(w, CRLF) >= 0
  {
    forall k | LineEnd(w) <= k <= |w| :: ParseStatusLine(w[..k]).BadStatus?
  }

  // ---- A good part shows in the words ----

  lemma GoodCodeStartsNumber(code: string, more: string)
    requires SpaceFree(code) && Stoul(code).Some?
    ensures code != "" && StartsNumber(code + more)
  {
    if code != "" {
      assert SkipSpace(code) == code;
      assert (code + more)[0] == code[0];
      assert |code| > 1 ==> (code + more)[1] == code[1] == code[1..][0];
    }
  }

  // The two words of a part with a good status line.
  lemma GoodWords(p: string) returns (rest: string)
    requires ParseStatusLine(p).GoodStatus?
    ensures ReadToken(IStream(p, true), "") == (IStream(rest, true), "HTTP/1.1")
    ensures SkipSpace(rest) != "" && forall more :: StartsNumber(SkipSpace(rest) + more)
  {
    var (stream, version) := ReadToken(IStream(p, true), "");
    var code := ReadToken(stream, "").1;
    rest := stream.buf;
    var t := SkipSpace(rest);
    assert code != "" by {
      assert Stoul(code).Some?;
    }
    assert t == code + t[|code|..];
    forall more: string ensures StartsNumber(t + more) {
      GoodCodeStartsNumber(code, t[|code|..] + more);
      assert code + (t[|code|..] + more) == t + more;
    }
  }

  lemma GoodPartIsLate(p: string, more: string)
    requires ParseStatusLine(p).GoodStatus?
    ensures LateStatus(p + more)
  {
    var rest := GoodWords(p);
    ReadTokenExtends(p, more, "");
    SkipSpaceExtends(rest, more);
  }

  // ---- And the words give a good part ----

  lemma WordsAre(space1: string, space2: string, t: string)
    requires AllSpace(space1) && AllSpace(space2) && space2 != "" && t != "" && !IsSpace(t[0])
    ensures ReadToken(IStream(space1 + ("HTTP/1.1" + (space2 + t)), true), "")
         == (IStream(space2 + t, true), "HTTP/1.1")
    ensures SkipSpace(space2 + t) == t
  {
    var r := space2 + t;
    SkipsSpaces(space1, "HTTP/1.1" + r);
    ReadTokenIs("HTTP/1.1", r, "");
    SkipsSpaces(space2, t);
  }

  lemma WordsOf(w: string) returns (space1: string, space2: string, t: string)
    requires LateStatus(w)
    ensures w == space1 + ("HTTP/1.1" + (space2 + t)) && AllSpace(space1) && AllSpace(space2) && space2 != ""
    ensures StartsNumber(t)
  {
    space1 := SkippedIsSpace(w);
    var u, r := SkipSpace(w), ReadToken(IStream(w, true), "").0.buf;
    assert u == "HTTP/1.1" + r;
    space2 := SkippedIsSpace(r);
    t := SkipSpace(r);
  }

  // Up to its first digit a number is read.
  lemma ShortNumber(d: string)
    requires StartsNumber(d) && |d| == if IsDigit(d[0]) then 1 else 2
    ensures SpaceFree(d) && Stoul(d).Some?
  {
    assert SkipSpace(d) == d;
    var u := if d[0] == '-' || d[0] == '+' then d[1..] else d;
    assert |u| == 1 && IsDigit(u[0]) && u[1..] == "";
    assert DigitCount(u) == 1 && u[..1] == u;
    assert u[..0] == "" && Value(u) < 10;
  }

  lemma ShortPartIsGood(space1: string, space2: string, d: string)
    requires AllSpace(space1) && AllSpace(space2) && space2 != ""
    requires StartsNumber(d) && |d| == if IsDigit(d[0]) then 1 else 2
    ensures ParseStatusLine(space1 + ("HTTP/1.1" + (space2 + d))).GoodStatus?
  {
    ShortNumber(d);
    WordsAre(space1, space2, d);
    assert d[..|d|] == d && d[|d|..] == "";
    TokenLengthIs(d, |d|);
  }

  // A line that reaches into the second word has two words.
  lemma LineHasWords(space1: string, space2: string, u: string)
    requires AllSpace(space1) && AllSpace(space2) && space2 != "" && u != "" && !IsSpace(u[0])
    ensures !WordsMissing(space1 + ("HTTP/1.1" + (space2 + u)))
  {
    WordsAre(space1, space2, u);
  }

  lemma LateStatusGoodPart(w: string) returns (k: nat)
    requires Find(w, CRLF) >= 0 && WordsMissing(w[..LineEnd(w)]) && LateStatus(w)
    ensures LineEnd(w) <= k <= |w| && ParseStatusLine(w[..k]).GoodStatus?
  {
    var space1, space2, t := WordsOf(w);
    var head := space1 + ("HTTP/1.1" + space2);
    assert w == head + t;
    var n := if IsDigit(t[0]) then 1 else 2;
    k := |head| + n;
    assert w[..k] == space1 + ("HTTP/1.1" + (space2 + t[..n]));
    ShortPartIsGood(space1, space2, t[..n]);
    if |head| < LineEnd(w) {
      var u := t[..LineEnd(w) - |head|];
      assert w[..LineEnd(w)] == space1 + ("HTTP/1.1" + (space2 + u));
      LineHasWords(space1, space2, u);
    }
  }

  // ---- Exactly when a bad first line stays bad ----

  lemma WordsPresent(w: string)
    requires Find(w, CRLF) >= 0 && !GoodFirstLine(w) && !WordsMissing(w[..LineEnd(w)])
    ensures BadThroughout(w)
  {
    var line := w[..LineEnd(w)];
    CrlfAt(w, Find(w, CRLF));
    forall k | LineEnd(w) <= k <= |w| ensures ParseStatusLine(w[..k]).BadStatus? {
      assert w[..k] == line + w[LineEnd(w)..k];
      BadLineExtends(line, w[LineEnd(w)..k]);
    }
  }

  lemma NotLate(w: string)
    requires Find(w, CRLF) >= 0 && !LateStatus(w)
    ensures BadThroughout(w)
  {
    forall k | LineEnd(w) <= k <= |w| ensures ParseStatusLine(w[..k]).BadStatus? {
      if ParseStatusLine(w[..k]).GoodStatus? {
        assert w == w[..k] + w[k..];
        GoodPartIsLate(w[..k], w[k..]);
      }
    }
  }

  // A first line that is bad by itself stays bad whatever arrives with it iff it has its two words, or the
  // first two words of the stream are not the version and the start of a number.
  lemma BadThroughoutIff(w: string)
    requires Find(w, CRLF) >= 0 && !GoodFirstLine(w)
    ensures BadThroughout(w) <==> !WordsMissing(w[..LineEnd(w)]) || !LateStatus(w)
  {
    if !WordsMissing(w[..LineEnd(w)]) {
      WordsPresent(w);
    } else if !LateStatus(w) {
      NotLate(w);
    } else {
      var k := LateStatusGoodPart(w);
    }
  }
}
