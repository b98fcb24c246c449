/**
 The keyword processor of main.py: `format_text_to_list` splits the text box
 contents on whitespace and keeps each distinct word once, at its first
 occurrence; the "Make Keywords" handler then writes every kept word followed
 by one space.
 */
module KeywordProcessor {
  import opened Split

  // ---------------------------------------------------------------------------
  // Distinct elements in first-occurrence order
  // ---------------------------------------------------------------------------

  predicate NoDups<T(==)>(r: seq<T>)
  {
    forall i, j :: 0 <= i < j < |r| ==> r[i] != r[j]
  }

  /** The position of the first occurrence of `x` in `ts`. */
  function FirstIndex<T(==)>(ts: seq<T>, x: T): (i: nat)
    requires x in ts
    ensures i < |ts| && ts[i] == x
    ensures forall j :: 0 <= j < i ==> ts[j] != x
  {
    if ts[0] == x then 0 else 1 + FirstIndex(ts[1..], x)
  }

  /**
   What `final_list` holds once the loop of `format_text_to_list` has gone
   through `ts`: each element is appended unless it is already there.
   */
  function Dedup<T(==, !new)>(ts: seq<T>): (r: seq<T>)
    ensures NoDups(r)
    ensures forall x :: x in r <==> x in ts
    ensures |r| <= |ts|
  {
    if ts == [] then []
    else
      var prefix := ts[..|ts| - 1];
      var x := ts[|ts| - 1];
      assert ts == prefix + [x];
      var r0 := Dedup(prefix);
      if x in r0 then r0 else r0 + [x]
  }

  /** The ordering `Dedup` keeps: by position of first occurrence in `ts`. */
  ghost predicate InFirstOccurrenceOrder<T(!new)>(ts: seq<T>, r: seq<T>)
    requires forall x :: x in r ==> x in ts
  {
    forall i, j :: 0 <= i < j < |r| ==> FirstIndex(ts, r[i]) < FirstIndex(ts, r[j])
  }

  /** First occurrences do not move when elements are added at the end. */
  lemma FirstIndexPrefix<T>(ts: seq<T>, m: nat, y: T)
    requires m <= |ts|
    requires y in ts[..m]
    ensures FirstIndex(ts, y) == FirstIndex(ts[..m], y)
  {
    var a, b := FirstIndex(ts[..m], y), FirstIndex(ts, y);
    assert ts[..m][a] == ts[a];
    assert b <= a;
    assert ts[..m][b] == ts[b];
  }

  /** Each kept element sits at its first occurrence: `Dedup(ts)` lists them in that order. */
  lemma {:induction false} DedupFirstOccurrenceOrder<T(!new)>(ts: seq<T>)
    ensures InFirstOccurrenceOrder(ts, Dedup(ts))
  {
    if ts != [] {
      var n := |ts|;
      var prefix, x := ts[..n - 1], ts[n - 1];
      assert ts == prefix + [x];
      var r0 := Dedup(prefix);
      DedupFirstOccurrenceOrder(prefix);
      forall y | y in r0 ensures FirstIndex(ts, y) == FirstIndex(prefix, y) {
        FirstIndexPrefix(ts, n - 1, y);
      }
      if x !in r0 {
        var r := r0 + [x];
        assert FirstIndex(ts, x) == n - 1;
        forall i, j | 0 <= i < j < |r| ensures FirstIndex(ts, r[i]) < FirstIndex(ts, r[j]) {
          assert r[i] == r0[i];
          if j < |r0| {
            assert r[j] == r0[j];
          }
        }
      }
    }
  }

  /**
   `Dedup` is the only sequence without repetitions that has exactly the
   elements of `ts`, in first-occurrence order.
   */
  lemma {:induction false} DedupUnique<T(!new)>(ts: seq<T>, r: seq<T>)
    requires NoDups(r)
    requires forall x :: x in r <==> x in ts
    requires InFirstOccurrenceOrder(ts, r)
    ensures r == Dedup(ts)
  {
    if ts == [] {
      HeadIsMember(r);
    } else {
      var prefix, x := ts[..|ts| - 1], ts[|ts| - 1];
      assert ts == prefix + [x];
      if x in prefix {
        SameOrderOnPrefix(prefix, x, r);
        DedupUnique(prefix, r);
      } else {
        var r' := NewestLast(prefix, x, r);
        SameOrderOnPrefix(prefix, x, r');
        DedupUnique(prefix, r');
      }
    }
  }

  /**
   A non-empty sequence has its head among its members. Stated apart so that
   `DedupUnique` can use it where `r != []` cannot hold.
   */
  lemma HeadIsMember<T>(r: seq<T>)
    ensures r == [] || r[0] in r
  {
  }

  /** Elements that already occur in `prefix` are ordered alike against `prefix + [x]` and against `prefix`. */
  lemma SameOrderOnPrefix<T(!new)>(prefix: seq<T>, x: T, r: seq<T>)
    requires forall y :: y in r ==> y in prefix
    requires InFirstOccurrenceOrder(prefix + [x], r)
    ensures InFirstOccurrenceOrder(prefix, r)
  {
    var ts := prefix + [x];
    assert ts[..|prefix|] == prefix;
    forall y | y in r ensures FirstIndex(ts, y) == FirstIndex(prefix, y) {
      FirstIndexPrefix(ts, |prefix|, y);
    }
  }

  /**
   In a repetition-free first-occurrence ordering of all of `prefix + [x]`,
   where `x` is new, `x` comes last and the elements before it are exactly
   those of `prefix`.
   */
  lemma NewestLast<T(!new)>(prefix: seq<T>, x: T, r: seq<T>) returns (r': seq<T>)
    requires x !in prefix
    requires NoDups(r)
    requires forall y :: y in r <==> y in prefix + [x]
    requires InFirstOccurrenceOrder(prefix + [x], r)
    ensures r == r' + [x]
    ensures forall y :: y in r' <==> y in prefix
    ensures InFirstOccurrenceOrder(prefix + [x], r')
  {
    var ts := prefix + [x];
    assert FirstIndex(ts, x) == |prefix|;
    assert x in r;
    var k :| 0 <= k < |r| && r[k] == x;
    assert FirstIndex(ts, r[|r| - 1]) <= FirstIndex(ts, r[k]);
    if k < |r| - 1 {
      assert false;
    }
    r' := r[..|r| - 1];
    assert r == r' + [x];
    forall y ensures y in r' <==> y in prefix {
      if y in r' {
        assert y in r && y != x;
      }
      if y in prefix {
        assert y in r;
      }
    }
  }

  /**
   The specification of `Dedup` by its result alone: no repetitions, nothing
   lost, nothing added, first-occurrence order.
   */
  lemma DedupCharacterization<T(!new)>(ts: seq<T>, r: seq<T>)
    ensures r == Dedup(ts) <==>
              && NoDups(r)
              && (forall x :: x in r <==> x in ts)
              && InFirstOccurrenceOrder(ts, r)
  {
    if r == Dedup(ts) {
      DedupFirstOccurrenceOrder(ts);
    } else if NoDups(r) && (forall x :: x in r <==> x in ts) && InFirstOccurrenceOrder(ts, r) {
      DedupUnique(ts, r);
    }
  }

  /** A sequence without repetitions is left as it is. */
  lemma {:induction false} DedupOfDistinct<T(!new)>(ts: seq<T>)
    requires NoDups(ts)
    ensures Dedup(ts) == ts
  {
    if ts != [] {
      var prefix := ts[..|ts| - 1];
      DedupOfDistinct(prefix);
      assert ts == prefix + [ts[|ts| - 1]];
    }
  }

  // ---------------------------------------------------------------------------
  // The keyword string
  // ---------------------------------------------------------------------------

  /** Every word followed by one space, in order. */
  function Join(words: seq<string>): (s: string)
    ensures s == [] <==> words == []
  {
    if words == [] then [] else words[0] + " " + Join(words[1..])
  }

  /** The length of `Join(words)` as the source's loop adds it up: each word and its space. */
  function Width(words: seq<string>): nat
  {
    if words == [] then 0 else |words[0]| + 1 + Width(words[1..])
  }

  /** Appending one word to the list appends the word and one space to the string. */
  lemma {:induction false} JoinSnoc(words: seq<string>, w: string)
    ensures Join(words + [w]) == Join(words) + (w + " ")
  {
    if words == [] {
      assert words + [w] == [w];
    } else {
      assert (words + [w])[0] == words[0];
      assert (words + [w])[1..] == words[1..] + [w];
      JoinSnoc(words[1..], w);
    }
  }

  lemma {:induction false} JoinLength(words: seq<string>)
    ensures |Join(words)| == Width(words)
  {
    if words != [] {
      JoinLength(words[1..]);
    }
  }

  /** One more word widens the string by that word and its space. */
  lemma {:induction false} WidthSnoc(words: seq<string>, w: string)
    ensures Width(words + [w]) == Width(words) + |w| + 1
  {
    if words == [] {
      assert words + [w] == [w];
    } else {
      assert (words + [w])[0] == words[0];
      assert (words + [w])[1..] == words[1..] + [w];
      WidthSnoc(words[1..], w);
    }
  }

  /**
   Word `k` starts where the words before it and their spaces end, and is
   followed by exactly one space; the next word starts right after that space,
   so with `JoinLength` the segments cover the whole string.
   */
  lemma {:induction false} JoinAt(words: seq<string>, k: nat)
    requires k < |words|
    ensures Width(words[..k]) + |words[k]| < |Join(words)|
    ensures Join(words)[Width(words[..k])..Width(words[..k]) + |words[k]|] == words[k]
    ensures Join(words)[Width(words[..k]) + |words[k]|] == ' '
    ensures Width(words[..k + 1]) == Width(words[..k]) + |words[k]| + 1
  {
    assert words[..k + 1] == words[..k] + [words[k]];
    WidthSnoc(words[..k], words[k]);
    var s := Join(words);
    var rest := Join(words[1..]);
    assert s == words[0] + " " + rest;
    if k == 0 {
      assert words[..0] == [];
      JoinLength(words[1..]);
    } else {
      JoinAt(words[1..], k - 1);
      assert words[..k][0] == words[0];
      assert words[..k][1..] == words[1..][..k - 1];
      var off := Width(words[1..][..k - 1]);
      assert Width(words[..k]) == |words[0]| + 1 + off;
      var m := |words[0]| + 1;
      assert s[m..] == rest;
      assert s[m + off..m + off + |words[k]|] == rest[off..off + |words[k]|];
      assert s[m + off + |words[k]|] == rest[off + |words[k]|];
    }
  }

  /** Splitting the keyword string on whitespace gives the words back. */
  lemma {:induction false} TokensOfJoin(words: seq<string>)
    requires forall w :: w in words ==> IsWord(w)
    ensures Tokens(Join(words)) == words
  {
    if words != [] {
      var rest := Join(words[1..]);
      assert Join(words) == words[0] + (" " + rest);
      TokensWordThen(words[0], " " + rest);
      assert (" " + rest)[1..] == rest;
      TokensOfJoin(words[1..]);
    }
  }

  // ---------------------------------------------------------------------------
  // format_text_to_list and the "Make Keywords" handler
  // ---------------------------------------------------------------------------

  /** The list `format_text_to_list(text)` returns. */
  function Keywords(text: string): seq<string>
  {
    Dedup(Tokens(text))
  }

  /** `format_text_to_list`: split on whitespace, then keep each word once. */
  method FormatTextToList(text: string) returns (finalList: seq<string>)
    ensures finalList == Keywords(text)
    ensures NoDups(finalList)
    ensures forall w :: w in finalList <==> w in Tokens(text)
    ensures forall w :: w in finalList ==> IsWord(w)
    ensures |finalList| <= |Tokens(text)|
  {
    var theList := Tokens(text);
    finalList := [];
    for i := 0 to |theList|
      invariant finalList == Dedup(theList[..i])
    {
      var word := theList[i];
      assert theList[..i + 1][..i] == theList[..i];
      if word !in finalList {
        finalList := finalList + [word];
      }
    }
    assert theList[..|theList|] == theList;
  }

  /** The loop of the "Make Keywords" handler: `keyword_string += wrd + " "` for each word. */
  method JoinWithTrailingSpace(words: seq<string>) returns (keywordString: string)
    ensures keywordString == Join(words)
  {
    keywordString := "";
    for i := 0 to |words|
      invariant keywordString == Join(words[..i])
    {
      assert words[..i + 1] == words[..i] + [words[i]];
      JoinSnoc(words[..i], words[i]);
      keywordString := keywordString + (words[i] + " ");
    }
    assert words[..|words|] == words;
  }

  /**
   The "Make Keywords" handler without its widgets: the text written out for
   the contents of the text area.
   */
  method MakeKeywords(allKeywords: string) returns (keywordString: string)
    ensures keywordString == Join(Keywords(allKeywords))
    ensures Tokens(keywordString) == Keywords(allKeywords)
    ensures keywordString == [] <==> AllWs(allKeywords)
  {
    keywordString := "";
    var keywordList := FormatTextToList(allKeywords);
    keywordString := JoinWithTrailingSpace(keywordList);
    TokensOfJoin(keywordList);
    TokensEmptyIffAllWs(allKeywords);
  }

  /** Processing the written-out keywords again gives the same list. */
  lemma KeywordsIdempotent(text: string)
    ensures Keywords(Join(Keywords(text))) == Keywords(text)
  {
    var d := Keywords(text);
    TokensOfJoin(d);
    DedupOfDistinct(d);
  }

  /** Empty or all-whitespace text, and only such text, gives no keywords. */
  lemma KeywordsEmpty(text: string)
    ensures Keywords(text) == [] <==> AllWs(text)
  {
    TokensEmptyIffAllWs(text);
  }
}
