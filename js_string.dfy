/**
 * JavaScript's String.prototype.trim, which both input forms use to decide
 * whether a text is blank (TodoForm also uses its result as the new text).
 */
module JsString {

  /**
   * The code points ECMAScript counts as WhiteSpace or LineTerminator
   * (sections 12.2 and 12.3 of ECMA-262): TAB, VT, FF, SPACE, NBSP, ZWNBSP,
   * the Unicode category Zs, LF, CR, LINE SEPARATOR and PARAGRAPH SEPARATOR.
   */
  predicate IsWhiteSpace(c: char) {
    || c == '\t' || c == '\U{000B}' || c == '\U{000C}' || c == ' '
    || c == '\U{00A0}' || c == '\U{FEFF}' || c == '\U{1680}'
    || ('\U{2000}' <= c <= '\U{200A}')
    || c == '\U{202F}' || c == '\U{205F}' || c == '\U{3000}'
    || c == '\n' || c == '\r' || c == '\U{2028}' || c == '\U{2029}'
  }

  predicate AllWhiteSpace(s: string) {
    forall i :: 0 <= i < |s| ==> IsWhiteSpace(s[i])
  }

  lemma AllWhiteSpaceConcat(x: string, y: string)
    requires AllWhiteSpace(x) && AllWhiteSpace(y)
    ensures AllWhiteSpace(x + y)
  {
    forall i | 0 <= i < |x + y|
      ensures IsWhiteSpace((x + y)[i])
    {
      if i < |x| {
        assert (x + y)[i] == x[i];
      } else {
        assert (x + y)[i] == y[i - |x|];
      }
    }
  }

  /** Neither end of s is whitespace. */
  predicate IsTrimmed(s: string) {
    s == [] || (!IsWhiteSpace(s[0]) && !IsWhiteSpace(s[|s| - 1]))
  }

  /** Strips the leading whitespace. */
  function TrimStart(s: string): (r: string)
    ensures |r| <= |s|
    ensures r == [] || !IsWhiteSpace(r[0])
  {
    if |s| > 0 && IsWhiteSpace(s[0]) then TrimStart(s[1..]) else s
  }

  /** Strips the trailing whitespace. */
  function TrimEnd(s: string): (r: string)
    ensures |r| <= |s|
    ensures r == [] || !IsWhiteSpace(r[|r| - 1])
  {
    if |s| > 0 && IsWhiteSpace(s[|s| - 1]) then TrimEnd(s[..|s| - 1]) else s
  }

  /** What TrimStart keeps is a suffix not starting with whitespace; what it drops is whitespace. */
  lemma {:induction false} TrimStartSpec(s: string)
    ensures |TrimStart(s)| <= |s| && TrimStart(s) == s[|s| - |TrimStart(s)|..]
    ensures AllWhiteSpace(s[..|s| - |TrimStart(s)|])
    ensures TrimStart(s) == [] || !IsWhiteSpace(TrimStart(s)[0])
  {
    if |s| > 0 && IsWhiteSpace(s[0]) {
      TrimStartSpec(s[1..]);
      var r := TrimStart(s[1..]);
      assert s[1..][..|s| - 1 - |r|] == s[1..|s| - |r|];
      assert forall i :: 0 < i < |s| - |r| ==> s[i] == s[1..|s| - |r|][i - 1];
    }
  }

  /** What TrimEnd keeps is a prefix not ending with whitespace; what it drops is whitespace. */
  lemma {:induction false} TrimEndSpec(s: string)
    ensures |TrimEnd(s)| <= |s| && TrimEnd(s) == s[..|TrimEnd(s)|]
    ensures AllWhiteSpace(s[|TrimEnd(s)|..])
    ensures TrimEnd(s) == [] || !IsWhiteSpace(TrimEnd(s)[|TrimEnd(s)| - 1])
  {
    if |s| > 0 && IsWhiteSpace(s[|s| - 1]) {
      var p := s[..|s| - 1];
      TrimEndSpec(p);
      var r := TrimEnd(p);
      assert p[|r|..] == s[|r|..|s| - 1];
      assert forall i :: |r| <= i < |s| - 1 ==> s[i] == s[|r|..|s| - 1][i - |r|];
    }
  }

  function Trim(s: string): (r: string)
    ensures |r| <= |s|
    ensures IsTrimmed(r)
  {
    var t := TrimStart(s);
    TrimEndSpec(t);
    TrimEnd(t)
  }

  /** s is the trimmed text with whitespace on both sides of it. */
  lemma TrimSplit(s: string) returns (lead: nat)
    ensures lead + |Trim(s)| <= |s|
    ensures s == s[..lead] + Trim(s) + s[lead + |Trim(s)|..]
    ensures AllWhiteSpace(s[..lead]) && AllWhiteSpace(s[lead + |Trim(s)|..])
  {
    var t := TrimStart(s);
    var r := Trim(s);
    assert r == TrimEnd(t);
    TrimStartSpec(s);
    TrimEndSpec(t);
    lead := |s| - |t|;
    var tail := s[lead + |r|..];
    assert AllWhiteSpace(s[..lead]);
    assert AllWhiteSpace(tail) by {
      assert tail == t[|r|..];
    }
    assert s == s[..lead] + r + tail by {
      assert t == s[lead..];
      assert r == s[lead..lead + |r|];
      assert s == s[..lead] + s[lead..lead + |r|] + s[lead + |r|..];
    }
  }

  lemma {:induction false} TrimStartPadded(a: string, x: string)
    requires AllWhiteSpace(a)
    requires x == [] || !IsWhiteSpace(x[0])
    ensures TrimStart(a + x) == x
  {
    if a != [] {
      assert (a + x)[1..] == a[1..] + x;
      TrimStartPadded(a[1..], x);
    }
  }

  lemma {:induction false} TrimEndPadded(x: string, b: string)
    requires AllWhiteSpace(b)
    requires x == [] || !IsWhiteSpace(x[|x| - 1])
    ensures TrimEnd(x + b) == x
  {
    if b != [] {
      assert (x + b)[..|x + b| - 1] == x + b[..|b| - 1];
      TrimEndPadded(x, b[..|b| - 1]);
    }
  }

  /**
   * Trim is determined by the decomposition of TrimSplit: whitespace, then a
   * text with no whitespace at its ends, then whitespace, trims to that text.
   */
  lemma TrimUnique(a: string, t: string, b: string)
    requires AllWhiteSpace(a) && AllWhiteSpace(b) && IsTrimmed(t)
    ensures Trim(a + t + b) == t
  {
    if t == [] {
      assert a + t + b == a + b;
      assert AllWhiteSpace(a + b);
      TrimStartPadded(a + b, []);
      assert a + b + [] == a + b;
    } else {
      assert a + t + b == a + (t + b);
      TrimStartPadded(a, t + b);
      TrimEndPadded(t, b);
    }
  }

  lemma Regroup(a: string, x: string, t: string, y: string, b: string)
    ensures a + (x + t + y) + b == (a + x) + t + (y + b)
  {
  }

  /** Extra whitespace around a text does not change its trim. */
  lemma TrimIgnoresPadding(a: string, text: string, b: string)
    requires AllWhiteSpace(a) && AllWhiteSpace(b)
    ensures Trim(a + text + b) == Trim(text)
  {
    var t := Trim(text);
    var lead := TrimSplit(text);
    var x, y := text[..lead], text[lead + |t|..];
    assert AllWhiteSpace(x) && AllWhiteSpace(y);
    var whole := a + text + b;
    assert whole == (a + x) + t + (y + b) by {
      Regroup(a, x, t, y, b);
    }
    assert Trim(whole) == t by {
      AllWhiteSpaceConcat(a, x);
      AllWhiteSpaceConcat(y, b);
      TrimUnique(a + x, t, y + b);
    }
  }

  /** A text trims to the empty string exactly when it is all whitespace. */
  lemma TrimBlank(s: string)
    ensures Trim(s) == [] <==> AllWhiteSpace(s)
  {
    var lead := TrimSplit(s);
    if AllWhiteSpace(s) {
      TrimUnique(s, [], []);
      assert s + [] + [] == s;
    }
  }

  /** Trim returns its argument exactly when neither end is whitespace. */
  lemma TrimFixedPoint(s: string)
    ensures Trim(s) == s <==> IsTrimmed(s)
  {
    if IsTrimmed(s) {
      TrimUnique([], s, []);
      assert [] + s + [] == s;
    }
  }

  lemma TrimIdempotent(s: string)
    ensures Trim(Trim(s)) == Trim(s)
  {
    TrimFixedPoint(Trim(s));
  }
}
