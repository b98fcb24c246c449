/**
 Python's `str.split()` called with no argument, as `format_text_to_list`
 uses it: the string is cut at every run of whitespace, and leading and
 trailing whitespace produce no empty pieces.
 */
module Split {

  /**
   The characters Python's `str.split()` treats as whitespace: those for which
   `str.isspace()` holds. This is CPython's table (Unicode 6.3 and later):
   TAB, LF, VT, FF, CR, the four information separators U+001C..U+001F, SPACE,
   NEL, NO-BREAK SPACE, OGHAM SPACE MARK, the spaces U+2000..U+200A, LINE and
   PARAGRAPH SEPARATOR, NARROW NO-BREAK SPACE, MEDIUM MATHEMATICAL SPACE and
   IDEOGRAPHIC SPACE. It is fixed here, not read from a Unicode database.
   */
  predicate IsWs(c: char)
  {
    || '\t' <= c <= '\r'
    || '\U{1C}' <= c <= '\U{1F}'
    || c == ' '
    || c == '\U{85}'
    || c == '\U{A0}'
    || c == '\U{1680}'
    || '\U{2000}' <= c <= '\U{200A}'
    || c == '\U{2028}'
    || c == '\U{2029}'
    || c == '\U{202F}'
    || c == '\U{205F}'
    || c == '\U{3000}'
  }

  /** A piece `split()` can return: non-empty, without whitespace. */
  predicate IsWord(w: string)
  {
    |w| > 0 && forall i :: 0 <= i < |w| ==> !IsWs(w[i])
  }

  predicate AllWs(s: string)
  {
    forall i :: 0 <= i < |s| ==> IsWs(s[i])
  }

  /** The length of the run of non-whitespace characters at the start of `s`. */
  function WordLen(s: string): (n: nat)
    ensures n <= |s|
    ensures forall i :: 0 <= i < n ==> !IsWs(s[i])
    ensures n == |s| || IsWs(s[n])
  {
    if s == [] || IsWs(s[0]) then 0 else 1 + WordLen(s[1..])
  }

  /** `s.split()`: the maximal runs of non-whitespace characters of `s`, in order. */
  function Tokens(s: string): (ts: seq<string>)
    ensures forall w :: w in ts ==> IsWord(w)
    ensures |ts| <= |s|
    decreases |s|
  {
    if s == [] then []
    else if IsWs(s[0]) then Tokens(s[1..])
    else
      var n := WordLen(s);
      [s[..n]] + Tokens(s[n..])
  }

  /** `s` with its whitespace removed. */
  function NonWs(s: string): string
  {
    if s == [] then []
    else if IsWs(s[0]) then NonWs(s[1..])
    else [s[0]] + NonWs(s[1..])
  }

  /** The pieces laid end to end, with nothing between them. */
  function Concat(ts: seq<string>): string
  {
    if ts == [] then [] else ts[0] + Concat(ts[1..])
  }

  /** `split()` returns nothing exactly when the input is empty or all whitespace. */
  lemma {:induction false} TokensEmptyIffAllWs(s: string)
    ensures Tokens(s) == [] <==> AllWs(s)
    decreases |s|
  {
    if s != [] && IsWs(s[0]) {
      TokensEmptyIffAllWs(s[1..]);
      if AllWs(s[1..]) {
        forall i | 0 <= i < |s| ensures IsWs(s[i]) {
          if i > 0 { assert s[i] == s[1..][i - 1]; }
        }
      }
    }
  }

  /** Leading whitespace of any length is skipped. */
  lemma {:induction false} TokensSkipWs(sep: string, rest: string)
    requires AllWs(sep)
    ensures Tokens(sep + rest) == Tokens(rest)
    decreases |sep|
  {
    if sep == [] {
      assert sep + rest == rest;
    } else {
      assert (sep + rest)[0] == sep[0];
      assert (sep + rest)[1..] == sep[1..] + rest;
      TokensSkipWs(sep[1..], rest);
    }
  }

  /** A word followed by the end of the string or by whitespace is read whole. */
  lemma {:induction false} WordLenOfWord(w: string, rest: string)
    requires IsWord(w)
    requires rest == [] || IsWs(rest[0])
    ensures WordLen(w + rest) == |w|
    decreases |w|
  {
    var s := w + rest;
    assert s[0] == w[0];
    if |w| > 1 {
      assert s[1..] == w[1..] + rest;
      WordLenOfWord(w[1..], rest);
    } else {
      assert s[1..] == rest;
    }
  }

  /** A word that ends at whitespace or at the end of the string becomes one piece. */
  lemma TokensWordThen(w: string, rest: string)
    requires IsWord(w)
    requires rest == [] || IsWs(rest[0])
    ensures Tokens(w + rest) == [w] + Tokens(rest)
  {
    var s := w + rest;
    WordLenOfWord(w, rest);
    assert s[0] == w[0];
    assert s[..|w|] == w;
    assert s[|w|..] == rest;
  }

  /** Splitting keeps every non-whitespace character, in order, and adds none. */
  lemma {:induction false} TokensKeepNonWs(s: string)
    ensures Concat(Tokens(s)) == NonWs(s)
    decreases |s|
  {
    if s != [] {
      if IsWs(s[0]) {
        TokensKeepNonWs(s[1..]);
      } else {
        var n := WordLen(s);
        var ts := Tokens(s[n..]);
        assert Tokens(s) == [s[..n]] + ts;
        assert ([s[..n]] + ts)[1..] == ts;
        TokensKeepNonWs(s[n..]);
        assert s == s[..n] + s[n..];
        NonWsAppend(s[..n], s[n..]);
        NonWsOfWord(s[..n]);
      }
    }
  }

  lemma {:induction false} NonWsAppend(a: string, b: string)
    ensures NonWs(a + b) == NonWs(a) + NonWs(b)
    decreases |a|
  {
    if a == [] {
      assert a + b == b;
    } else {
      assert (a + b)[0] == a[0];
      assert (a + b)[1..] == a[1..] + b;
      NonWsAppend(a[1..], b);
    }
  }

  lemma {:induction false} NonWsOfWord(w: string)
    requires forall i :: 0 <= i < |w| ==> !IsWs(w[i])
    ensures NonWs(w) == w
    decreases |w|
  {
    if w != [] {
      NonWsOfWord(w[1..]);
      assert w == [w[0]] + w[1..];
    }
  }
}
