/**
 * The string operations the tag builder relies on: Python's `str.split()` with no
 * argument, `" ".join(tokens)` and `s.replace(" ", "")`.
 */
module Text {

  /** Python's `str.isspace()` for one character: the separators `str.split()` splits on. */
  predicate IsSpace(c: char)
  {
    c == ' ' || ('\t' <= c <= '\r') || ('\U{1C}' <= c <= '\U{1F}')
    || c == '\U{85}' || c == '\U{A0}' || c == '\U{1680}'
    || ('\U{2000}' <= c <= '\U{200A}') || c == '\U{2028}' || c == '\U{2029}'
    || c == '\U{202F}' || c == '\U{205F}' || c == '\U{3000}'
  }

  /** The one character `replace(" ", "")` removes. */
  predicate IsBlank(c: char)
  {
    c == ' '
  }

  ghost predicate NoSpace(s: string)
  {
    forall k :: 0 <= k < |s| ==> !IsSpace(s[k])
  }

  /** Tokens as `str.split()` produces them: non-empty, without separators. */
  ghost predicate Words(tokens: seq<string>)
  {
    forall k :: 0 <= k < |tokens| ==> tokens[k] != [] && NoSpace(tokens[k])
  }

  /** The characters of `s` that `drop` does not select, in their order. */
  function Without(s: string, drop: char -> bool): (r: string)
    ensures |r| <= |s|
    ensures forall k :: 0 <= k < |r| ==> !drop(r[k]) && r[k] in s
  {
    if s == [] then []
    else (if drop(s[0]) then [] else [s[0]]) + Without(s[1..], drop)
  }

  /** `s.replace(" ", "")` */
  function RemoveBlanks(s: string): string
  {
    Without(s, IsBlank)
  }

  function Concat(tokens: seq<string>): string
  {
    if tokens == [] then [] else tokens[0] + Concat(tokens[1..])
  }

  /** `" ".join(tokens)` */
  function Join(tokens: seq<string>): string
  {
    if tokens == [] then []
    else if |tokens| == 1 then tokens[0]
    else tokens[0] + " " + Join(tokens[1..])
  }

  /** `s` without its leading separators. */
  function SkipSpaces(s: string): (r: string)
    ensures |r| <= |s| && r == s[|s| - |r|..]
    ensures r == [] || !IsSpace(r[0])
    ensures forall k :: 0 <= k < |s| - |r| ==> IsSpace(s[k])
  {
    if s != [] && IsSpace(s[0]) then SkipSpaces(s[1..]) else s
  }

  /** The length of the longest prefix of `s` without a separator. */
  function WordLength(s: string): (n: nat)
    ensures n <= |s|
    ensures forall k :: 0 <= k < n ==> !IsSpace(s[k])
    ensures n < |s| ==> IsSpace(s[n])
  {
    if s == [] || IsSpace(s[0]) then 0 else 1 + WordLength(s[1..])
  }

  /** `s.split()`: the maximal runs of non-separator characters, in order. */
  function Split(s: string): seq<string>
    decreases |s|
  {
    var t := SkipSpaces(s);
    if t == [] then []
    else
      var n := WordLength(t);
      [t[..n]] + Split(t[n..])
  }

  lemma {:induction false} WithoutAppend(a: string, b: string, drop: char -> bool)
    ensures Without(a + b, drop) == Without(a, drop) + Without(b, drop)
  {
    if a == [] {
      assert a + b == b;
    } else {
      var head := if drop(a[0]) then [] else [a[0]];
      assert (a + b)[0] == a[0] && (a + b)[1..] == a[1..] + b;
      WithoutAppend(a[1..], b, drop);
      calc {
        Without(a + b, drop);
        head + Without(a[1..] + b, drop);
        head + (Without(a[1..], drop) + Without(b, drop));
        (head + Without(a[1..], drop)) + Without(b, drop);
      }
    }
  }

  /** Removing characters none of which is selected changes nothing. */
  lemma {:induction false} WithoutNone(s: string, drop: char -> bool)
    requires forall k :: 0 <= k < |s| ==> !drop(s[k])
    ensures Without(s, drop) == s
  {
    if s != [] {
      WithoutNone(s[1..], drop);
    }
  }

  /** Removing characters all of which are selected leaves nothing. */
  lemma {:induction false} WithoutAll(s: string, drop: char -> bool)
    requires forall k :: 0 <= k < |s| ==> drop(s[k])
    ensures Without(s, drop) == []
  {
    if s != [] {
      WithoutAll(s[1..], drop);
    }
  }

  /**
   * `replace(" ", "")` leaves no space, keeps every other character in order (it distributes
   * over concatenation), changes a string without spaces not at all, and is idempotent.
   */
  lemma RemoveBlanksFacts(s: string, t: string)
    ensures ' ' !in RemoveBlanks(s)
    ensures RemoveBlanks(s + t) == RemoveBlanks(s) + RemoveBlanks(t)
    ensures ' ' !in s ==> RemoveBlanks(s) == s
    ensures RemoveBlanks(RemoveBlanks(s)) == RemoveBlanks(s)
  {
    WithoutAppend(s, t, IsBlank);
    WithoutNone(RemoveBlanks(s), IsBlank);
    if ' ' !in s {
      WithoutNone(s, IsBlank);
    }
  }

  /** Leading separators carry no text. */
  lemma SkipKeepsText(s: string)
    ensures Without(SkipSpaces(s), IsSpace) == Without(s, IsSpace)
  {
    var d := |s| - |SkipSpaces(s)|;
    assert s == s[..d] + SkipSpaces(s);
    WithoutAppend(s[..d], SkipSpaces(s), IsSpace);
    WithoutAll(s[..d], IsSpace);
  }

  /** A word followed by the rest: the word is kept whole. */
  lemma WordKeepsText(t: string)
    ensures Without(t, IsSpace) == t[..WordLength(t)] + Without(t[WordLength(t)..], IsSpace)
  {
    var n := WordLength(t);
    assert t == t[..n] + t[n..];
    WithoutAppend(t[..n], t[n..], IsSpace);
    WithoutNone(t[..n], IsSpace);
  }

  /** `s.split()` loses exactly the separators: its tokens concatenate to the other characters. */
  lemma {:induction false} SplitKeepsText(s: string)
    ensures Concat(Split(s)) == Without(s, IsSpace)
    decreases |s|
  {
    var t := SkipSpaces(s);
    SkipKeepsText(s);
    if t != [] {
      var n := WordLength(t);
      assert Split(s) == [t[..n]] + Split(t[n..]);
      WordKeepsText(t);
      SplitKeepsText(t[n..]);
      assert Concat(Split(s)) == t[..n] + Concat(Split(t[n..]));
    }
  }

  /** Every token of `s.split()` is non-empty and holds no separator. */
  lemma {:induction false} SplitClean(s: string)
    ensures Words(Split(s))
    decreases |s|
  {
    if SkipSpaces(s) != [] {
      var word, more := SplitFirst(s);
      SplitClean(more);
      WordsCons(word, Split(more));
    }
  }

  lemma WordsCons(word: string, rest: seq<string>)
    requires word != [] && NoSpace(word) && Words(rest)
    ensures Words([word] + rest)
  {
    forall k | 0 < k < |[word] + rest|
      ensures ([word] + rest)[k] != [] && NoSpace(([word] + rest)[k])
    {
      assert ([word] + rest)[k] == rest[k - 1];
    }
  }

  /** The first token of `s.split()`, when there is one, and the text after it. */
  lemma SplitFirst(s: string) returns (word: string, more: string)
    requires SkipSpaces(s) != []
    ensures Split(s) == [word] + Split(more)
    ensures word != [] && NoSpace(word)
    ensures |more| < |s|
  {
    var t := SkipSpaces(s);
    var n := WordLength(t);
    word, more := t[..n], t[n..];
    assert n != 0;
    assert NoSpace(word) by {
      forall i | 0 <= i < n
        ensures !IsSpace(word[i])
      {
        assert word[i] == t[i];
      }
    }
  }

  /** A string that starts with a non-separator is not changed by skipping separators. */
  lemma SkipNothing(s: string)
    requires s == [] || !IsSpace(s[0])
    ensures SkipSpaces(s) == s
  {
  }

  lemma SplitWord(w: string)
    requires w != [] && NoSpace(w)
    ensures Split(w) == [w]
  {
    SkipNothing(w);
    assert WordLength(w) == |w|;
    assert w[..|w|] == w && w[|w|..] == [];
  }

  /** Leading separators do not change the split. */
  lemma SplitSkips(s: string)
    ensures Split(s) == Split(SkipSpaces(s))
  {
    SkipNothing(SkipSpaces(s));
  }

  /** A string that starts with a word splits into that word and the split of the rest. */
  lemma SplitFirstWord(s: string)
    requires s != [] && !IsSpace(s[0])
    ensures Split(s) == [s[..WordLength(s)]] + Split(s[WordLength(s)..])
  {
    SkipNothing(s);
  }

  /** The first word of `w + " " + rest` is `w`. */
  lemma WordThenLength(w: string, rest: string)
    requires NoSpace(w)
    ensures WordLength(w + " " + rest) == |w|
  {
    var j := w + " " + rest;
    assert j[|w|] == ' ';
    forall k | 0 <= k < |w|
      ensures !IsSpace(j[k])
    {
      assert j[k] == w[k];
    }
  }

  /** A word followed by a space splits into the word and the split of what follows it. */
  lemma SplitWordSpace(w: string, rest: string)
    requires w != [] && NoSpace(w)
    ensures Split(w + " " + rest) == [w] + Split(" " + rest)
  {
    var j := w + " " + rest;
    WordThenLength(w, rest);
    assert j[0] == w[0];
    SplitFirstWord(j);
    assert j[..|w|] == w && j[|w|..] == " " + rest;
  }

  /** One leading space before a non-separator does not change the split. */
  lemma SplitSpaceThen(rest: string)
    requires rest == [] || !IsSpace(rest[0])
    ensures Split(" " + rest) == Split(rest)
  {
    var x := " " + rest;
    assert SkipSpaces(x) == rest by {
      assert x[0] == ' ' && x[1..] == rest;
      assert IsSpace(x[0]);
      SkipNothing(rest);
    }
    SplitSkips(x);
  }

  /** A word, one space and a rest that starts with a non-separator split at that space. */
  lemma SplitWordThen(w: string, rest: string)
    requires w != [] && NoSpace(w)
    requires rest == [] || !IsSpace(rest[0])
    ensures Split(w + " " + rest) == [w] + Split(rest)
  {
    SplitWordSpace(w, rest);
    SplitSpaceThen(rest);
  }

  lemma JoinStart(tokens: seq<string>)
    requires tokens != [] && tokens[0] != []
    ensures Join(tokens) != [] && Join(tokens)[0] == tokens[0][0]
  {
  }

  /**
   * Joining non-empty, separator-free tokens with single spaces and splitting the result
   * gives the tokens back.
   */
  lemma {:induction false} SplitJoin(tokens: seq<string>)
    requires Words(tokens)
    ensures Split(Join(tokens)) == tokens
  {
    if tokens == [] {
    } else if |tokens| == 1 {
      SplitWord(tokens[0]);
    } else {
      var rest := tokens[1..];
      assert Join(rest) == [] || !IsSpace(Join(rest)[0]) by {
        assert rest[0] == tokens[1];
        JoinStart(rest);
      }
      assert Join(tokens) == tokens[0] + " " + Join(rest);
      SplitWordThen(tokens[0], Join(rest));
      SplitJoin(rest);
      assert tokens == [tokens[0]] + rest;
    }
  }

  /** Splitting is unchanged by a round through `" ".join`: the shape of `stem`'s input and output. */
  lemma SplitJoinSplit(s: string)
    ensures Split(Join(Split(s))) == Split(s)
  {
    SplitClean(s);
    SplitJoin(Split(s));
  }
}
