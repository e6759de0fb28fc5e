/**
 The few Python `str` primitives the reply formatting relies on: the whitespace
 class that both `str.split()` and the `\s` of a `re` pattern use, `str.replace`
 and `str.split()` without arguments. Strings are sequences of Unicode scalar values.
 */
module PyText {

  /** Python's `None` or a value. */
  datatype Option<+T> = None | Some(value: T)

  /** `str.isspace()` of one character: the characters `\s` matches in a `str`
      pattern and the separators `str.split()` splits on. */
  predicate IsSpace(c: char)
    ensures c == ' ' || c == '\t' || c == '\n' || c == '\r' ==> IsSpace(c)
    ensures IsSpace(c) ==> c != ':' && c != '<' && c != '>' && c != '`'
  {
    || ('\t' <= c <= '\r')
    || ('\U{1C}' <= c <= '\U{1F}')
    || c == ' '
    || c == '\U{85}'
    || c == '\U{A0}'
    || c == '\U{1680}'
    || ('\U{2000}' <= c <= '\U{200A}')
    || c == '\U{2028}'
    || c == '\U{2029}'
    || c == '\U{202F}'
    || c == '\U{205F}'
    || c == '\U{3000}'
  }

  /** No character of `s` is whitespace. */
  predicate NoSpace(s: string) {
    forall k :: 0 <= k < |s| ==> !IsSpace(s[k])
  }

  /** `s.replace(pat, rep)`: every non-overlapping occurrence of `pat`, found
      left to right, is replaced by `rep`. */
  function Replace(s: string, pat: string, rep: string): (r: string)
    requires |pat| > 0
    ensures |rep| <= |pat| ==> |r| <= |s|
    ensures (forall k :: 0 <= k < |s| ==> s[k] != pat[0]) ==> r == s
    decreases |s|
  {
    if |s| < |pat| then s
    else if s[..|pat|] == pat then rep + Replace(s[|pat|..], pat, rep)
    else [s[0]] + Replace(s[1..], pat, rep)
  }

  /** Text in which the first character of the pattern never occurs is copied
      through unchanged, whatever follows it. */
  lemma {:induction false} ReplaceLiteralPrefix(p: string, t: string, pat: string, rep: string)
    requires |pat| > 0
    requires forall k :: 0 <= k < |p| ==> p[k] != pat[0]
    ensures Replace(p + t, pat, rep) == p + Replace(t, pat, rep)
    decreases |p|
  {
    if p == [] {
      assert p + t == t;
    } else {
      var s := p + t;
      assert s[0] == p[0] && s[1..] == p[1..] + t;
      assert |s| < |pat| || s[..|pat|][0] != pat[0];
      ReplaceSkipHead(s, pat, rep);
      ReplaceLiteralPrefix(p[1..], t, pat, rep);
      assert [p[0]] + (p[1..] + Replace(t, pat, rep)) == p + Replace(t, pat, rep);
    }
  }

  /** An occurrence of the pattern at the front is replaced, and the scan
      resumes right after it. */
  lemma ReplaceMatchHead(t: string, pat: string, rep: string)
    requires |pat| > 0
    ensures Replace(pat + t, pat, rep) == rep + Replace(t, pat, rep)
  {
    var s := pat + t;
    assert s[..|pat|] == pat;
    assert s[|pat|..] == t;
  }

  /** A front that is not an occurrence of the pattern keeps its first character. */
  lemma ReplaceSkipHead(s: string, pat: string, rep: string)
    requires |pat| > 0 && |s| > 0
    requires |s| < |pat| || s[..|pat|] != pat
    ensures Replace(s, pat, rep) == [s[0]] + Replace(s[1..], pat, rep)
  {
    if |s| < |pat| {
      assert Replace(s[1..], pat, rep) == s[1..];
    }
  }

  /** The longest whitespace-free prefix of `s`. */
  function Word(s: string): (w: string)
    ensures |w| <= |s| && w == s[..|w|]
    ensures NoSpace(w)
    ensures |w| < |s| ==> IsSpace(s[|w|])
    ensures |s| > 0 && !IsSpace(s[0]) ==> |w| > 0
  {
    if s == [] || IsSpace(s[0]) then [] else [s[0]] + Word(s[1..])
  }

  /** `s.split()`: the maximal runs of non-whitespace characters, in order. */
  function Split(s: string): (words: seq<string>)
    ensures forall k :: 0 <= k < |words| ==> |words[k]| > 0 && NoSpace(words[k])
    decreases |s|
  {
    if s == [] then []
    else if IsSpace(s[0]) then Split(s[1..])
    else
      var w := Word(s);
      [w] + Split(s[|w|..])
  }

  /** The number of positions of `s` where a word begins: a character that is
      not whitespace and comes first or right after whitespace. `afterSpace`
      says whether the position before `s` counts as whitespace (or the start). */
  function WordStarts(s: string, afterSpace: bool): nat
    decreases |s|
  {
    if s == [] then 0
    else (if afterSpace && !IsSpace(s[0]) then 1 else 0) + WordStarts(s[1..], IsSpace(s[0]))
  }

  lemma {:induction false} WordStartsInWord(w: string, t: string)
    requires NoSpace(w)
    ensures WordStarts(w + t, false) == WordStarts(t, false)
    decreases |w|
  {
    if w == [] {
      assert w + t == t;
    } else {
      assert (w + t)[0] == w[0] && (w + t)[1..] == w[1..] + t;
      assert NoSpace(w[1..]) by {
        forall k | 0 <= k < |w[1..]| ensures !IsSpace(w[1..][k]) {
          assert w[1..][k] == w[k + 1];
        }
      }
      WordStartsInWord(w[1..], t);
    }
  }

  /** `len(s.split())` counts the words: there are exactly as many as there
      are positions where a word begins. */
  lemma {:induction false} SplitCountsWordStarts(s: string)
    ensures |Split(s)| == WordStarts(s, true)
    decreases |s|
  {
    if s != [] {
      if IsSpace(s[0]) {
        SplitCountsWordStarts(s[1..]);
      } else {
        var w := Word(s);
        var t := s[|w|..];
        SplitCountsWordStarts(t);
        assert s[1..] == w[1..] + t;
        assert NoSpace(w[1..]) by {
          forall k | 0 <= k < |w[1..]| ensures !IsSpace(w[1..][k]) {
            assert w[1..][k] == w[k + 1];
          }
        }
        WordStartsInWord(w[1..], t);
        if t != [] {
          assert IsSpace(t[0]);
        }
      }
    }
  }

  /** The characters of `s` that are not whitespace, in order. */
  function Unspaced(s: string): (r: string)
    ensures |r| <= |s|
  {
    if s == [] then [] else (if IsSpace(s[0]) then [] else [s[0]]) + Unspaced(s[1..])
  }

  /** The words joined back together. */
  function Flatten(words: seq<string>): string {
    if words == [] then [] else words[0] + Flatten(words[1..])
  }

  lemma {:induction false} UnspacedAppend(a: string, b: string)
    ensures Unspaced(a + b) == Unspaced(a) + Unspaced(b)
    decreases |a|
  {
    if a != [] {
      var head := if IsSpace(a[0]) then [] else [a[0]];
      assert (a + b)[0] == a[0];
      assert (a + b)[1..] == a[1..] + b;
      UnspacedAppend(a[1..], b);
      calc {
        Unspaced(a + b);
        head + Unspaced(a[1..] + b);
        head + (Unspaced(a[1..]) + Unspaced(b));
        (head + Unspaced(a[1..])) + Unspaced(b);
      }
    } else {
      assert a + b == b;
    }
  }

  lemma {:induction false} UnspacedNoSpace(w: string)
    requires NoSpace(w)
    ensures Unspaced(w) == w
    decreases |w|
  {
    if w != [] {
      UnspacedNoSpace(w[1..]);
    }
  }

  /** `split()` loses exactly the whitespace: joining the words gives back the
      text with all whitespace removed. */
  lemma {:induction false} SplitKeepsNonSpace(s: string)
    ensures Flatten(Split(s)) == Unspaced(s)
    decreases |s|
  {
    if s != [] {
      if IsSpace(s[0]) {
        SplitKeepsNonSpace(s[1..]);
      } else {
        var w := Word(s);
        SplitKeepsNonSpace(s[|w|..]);
        assert s == w + s[|w|..];
        UnspacedAppend(w, s[|w|..]);
        UnspacedNoSpace(w);
      }
    }
  }

  lemma {:induction false} SplitAllSpace(t: string)
    requires forall k :: 0 <= k < |t| ==> IsSpace(t[k])
    ensures Split(t) == []
    decreases |t|
  {
    if t != [] {
      SplitAllSpace(t[1..]);
    }
  }

  lemma {:induction false} WordOfWordThenSpace(w: string, t: string)
    requires NoSpace(w)
    requires forall k :: 0 <= k < |t| ==> IsSpace(t[k])
    ensures Word(w + t) == w
    decreases |w|
  {
    if w == [] {
      assert w + t == t;
    } else {
      assert (w + t)[1..] == w[1..] + t;
      WordOfWordThenSpace(w[1..], t);
    }
  }

  /** A single word, optionally followed by whitespace, splits into that word alone. */
  lemma SplitOneWord(w: string, t: string)
    requires |w| > 0 && NoSpace(w)
    requires forall k :: 0 <= k < |t| ==> IsSpace(t[k])
    ensures Split(w + t) == [w]
  {
    var s := w + t;
    WordOfWordThenSpace(w, t);
    assert s[|w|..] == t;
    SplitAllSpace(t);
  }
}
