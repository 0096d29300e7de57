/**
  * Model of AlphaOnlyTokenizer: raw text becomes a sequence of lowercase
  * ASCII-letter tokens with the stopwords taken out.
  *
  * The string chain of `clean` (delete non letters, lowercase, trim, split)
  * is pure and is written as functions; the stopword pass is a loop that
  * appends to a list, and is the method `Clean`.
  */
module Tokenizer {

  // ---------------------------------------------------------------------
  // Characters
  // ---------------------------------------------------------------------

  predicate IsAsciiLetter(c: char) {
    'a' <= c <= 'z' || 'A' <= c <= 'Z'
  }

  /** Every character of `s` is an ASCII letter or the space character. */
  predicate LettersAndSpaces(s: string) {
    forall i :: 0 <= i < |s| ==> IsAsciiLetter(s[i]) || s[i] == ' '
  }

  /** `w` is made of lowercase ASCII letters only (the empty word included). */
  predicate LowerWord(w: string) {
    forall i :: 0 <= i < |w| ==> 'a' <= w[i] <= 'z'
  }

  /** ASCII lowercasing of one character; every other character is kept. */
  function LowerChar(c: char): char {
    if 'A' <= c <= 'Z' then (c as int + 32) as char else c
  }

  /** `toLowerCase`, restricted to the ASCII letters. */
  function ToLower(s: string): string {
    seq(|s|, i requires 0 <= i < |s| => LowerChar(s[i]))
  }

  // ---------------------------------------------------------------------
  // The string chain of clean
  // ---------------------------------------------------------------------

  /** `replaceAll("[^a-zA-Z ]", "")`: every character that is not an ASCII
    * letter or a space is deleted, not replaced by a separator. */
  function KeepAlphaSpace(s: string): (r: string)
    ensures LettersAndSpaces(r)
    ensures |r| <= |s|
  {
    if s == [] then []
    else (if IsAsciiLetter(s[0]) || s[0] == ' ' then [s[0]] else []) + KeepAlphaSpace(s[1..])
  }

  /** The ASCII letters of `s`, in order. */
  function Letters(s: string): string {
    if s == [] then []
    else (if IsAsciiLetter(s[0]) then [s[0]] else []) + Letters(s[1..])
  }

  /** Leading part of String.trim: drops characters up to U+0020. */
  function TrimLeft(s: string): (r: string)
    ensures |r| <= |s| && r == s[|s| - |r|..]
    ensures r == [] || r[0] > ' '
  {
    if s != [] && s[0] <= ' ' then TrimLeft(s[1..]) else s
  }

  /** Trailing part of String.trim. */
  function TrimRight(s: string): (r: string)
    ensures |r| <= |s| && r == s[..|r|]
    ensures r == [] || r[|r| - 1] > ' '
  {
    if s != [] && s[|s| - 1] <= ' ' then TrimRight(s[..|s| - 1]) else s
  }

  /** String.trim: the result neither starts nor ends with a character up to U+0020. */
  function Trim(s: string): (r: string)
    ensures r == [] || (r[0] > ' ' && r[|r| - 1] > ' ')
  {
    var l := TrimLeft(s);
    var r := TrimRight(l);
    assert r != [] ==> r[0] == l[0];
    r
  }

  /** The longest prefix of `s` without a space. */
  function LeadingWord(s: string): (w: string)
    ensures |w| <= |s| && w == s[..|w|]
    ensures ' ' !in w
    ensures |w| == |s| || s[|w|] == ' '
  {
    if s == [] || s[0] == ' ' then [] else [s[0]] + LeadingWord(s[1..])
  }

  /** The maximal runs of non-space characters of `s`, in order. */
  function Words(s: string): (ws: seq<string>)
    ensures forall w :: w in ws ==> w != [] && ' ' !in w
    ensures forall w, c :: w in ws && c in w ==> c in s
    decreases |s|
  {
    if s == [] then []
    else if s[0] == ' ' then Words(s[1..])
    else
      var w := LeadingWord(s);
      assert w[0] == s[0];
      var rest := Words(s[|w|..]);
      assert forall v, c :: v in rest && c in v ==> c in s by {
        forall v, c | v in rest && c in v ensures c in s {
          assert c in s[|w|..];
        }
      }
      [w] + rest
  }

  /** `split("\\s+")` on a string that `trim` has already stripped: the empty
    * string splits into one empty token, any other into its words. Only ASCII
    * letters and spaces reach the split, so the only whitespace is the space. */
  function JavaSplit(t: string): (ws: seq<string>)
    requires t == [] || (t[0] != ' ' && t[|t| - 1] != ' ')
    ensures ws != []
    ensures "" in ws <==> t == []
  {
    if t == [] then [""] else Words(t)
  }

  /** `trim().split("\\s+")` */
  function TrimSplit(l: string): seq<string> {
    JavaSplit(Trim(l))
  }

  /** The string chain of clean: filter, lowercase, trim and split. */
  function Tokens(text: string): (ts: seq<string>)
    ensures forall w :: w in ts ==> LowerWord(w)
    ensures ts == [""] <==> Letters(text) == []
  {
    var l := ToLower(KeepAlphaSpace(text));
    LoweredText(text);
    SplitOfLowered(l);
    assert |ToLower(Letters(text))| == |Letters(text)|;
    TrimSplit(l)
  }

  // ---------------------------------------------------------------------
  // The stopword pass
  // ---------------------------------------------------------------------

  /** The stopwords, each lowercased. */
  function LowerAll(stopwords: seq<string>): (ls: seq<string>)
    ensures |ls| == |stopwords|
  {
    if stopwords == [] then [] else [ToLower(stopwords[0])] + LowerAll(stopwords[1..])
  }

  lemma {:induction false} LowerAllAt(stopwords: seq<string>, i: nat)
    requires i < |stopwords|
    ensures LowerAll(stopwords)[i] == ToLower(stopwords[i])
  {
    if i > 0 {
      LowerAllAt(stopwords[1..], i - 1);
    }
  }

  /** `word` equals some stopword once that stopword is lowercased. */
  predicate IsStopword(word: string, stopwords: seq<string>) {
    word in LowerAll(stopwords)
  }

  /** The words that are not stopwords, in their original order, duplicates kept. */
  function RemoveStopwords(words: seq<string>, stopwords: seq<string>): (r: seq<string>)
    ensures |r| <= |words|
    ensures forall i :: 0 <= i < |r| ==> !IsStopword(r[i], stopwords)
  {
    if words == [] then []
    else
      var last := words[|words| - 1];
      RemoveStopwords(words[..|words| - 1], stopwords)
      + (if IsStopword(last, stopwords) then [] else [last])
  }

  /** What clean returns for `text`. */
  function CleanSpec(text: string, stopwords: seq<string>): seq<string> {
    RemoveStopwords(Tokens(text), stopwords)
  }

  /** Words joined with one space between neighbours. */
  function Join(ws: seq<string>): string {
    if ws == [] then ""
    else if |ws| == 1 then ws[0]
    else ws[0] + " " + Join(ws[1..])
  }

  /** Concatenation of the words, without separators. */
  function Concat(ws: seq<string>): string {
    if ws == [] then "" else ws[0] + Concat(ws[1..])
  }

  class AlphaOnlyTokenizer {
    const stopwordList: seq<string>

    constructor (stopwords: seq<string>)
      ensures stopwordList == stopwords
    {
      stopwordList := stopwords;
    }

    /** Tokens of `text` whose form differs from every lowercased stopword. */
    method Clean(text: string) returns (cleaned: seq<string>)
      ensures cleaned == CleanSpec(text, stopwordList)
      ensures forall w :: w in cleaned ==> LowerWord(w)
      ensures forall w, s :: w in cleaned && s in stopwordList ==> w != ToLower(s)
    {
      var split := Tokens(text);
      cleaned := [];
      var n := 0;
      while n < |split|
        invariant 0 <= n <= |split|
        invariant cleaned == RemoveStopwords(split[..n], stopwordList)
      {
        var word := split[n];
        var isStopword := MatchesStopword(word);
        if !isStopword {
          cleaned := cleaned + [word];
        }
        assert split[..n + 1][..n] == split[..n];
        n := n + 1;
      }
      assert split[..n] == split;
      CleanTokensAreLowerWords(text, stopwordList);
      CleanDropsStopwords(text, stopwordList);
    }

    /** The inner loop of clean: whether `word` equals a lowercased stopword. */
    method MatchesStopword(word: string) returns (isStopword: bool)
      ensures isStopword == IsStopword(word, stopwordList)
    {
      isStopword := false;
      ghost var lowered := LowerAll(stopwordList);
      for m := 0 to |stopwordList|
        invariant isStopword <==> word in lowered[..m]
      {
        if ToLower(stopwordList[m]) == word {
          isStopword := true;
        }
        LowerAllAt(stopwordList, m);
        assert lowered[..m + 1] == lowered[..m] + [lowered[m]];
      }
      assert lowered[..|stopwordList|] == lowered;
    }
  }

  // ---------------------------------------------------------------------
  // Lemmas: characters
  // ---------------------------------------------------------------------

  lemma {:induction false} LettersOfConcat(a: string, b: string)
    ensures Letters(a + b) == Letters(a) + Letters(b)
  {
    if a != [] {
      assert (a + b)[1..] == a[1..] + b;
      LettersOfConcat(a[1..], b);
      var head := if IsAsciiLetter(a[0]) then [a[0]] else [];
      calc {
        Letters(a + b);
        head + Letters(a[1..] + b);
        head + (Letters(a[1..]) + Letters(b));
        (head + Letters(a[1..])) + Letters(b);
      }
    } else {
      assert a + b == b;
    }
  }

  lemma {:induction false} KeepAlphaSpaceKeepsLetters(s: string)
    ensures Letters(KeepAlphaSpace(s)) == Letters(s)
  {
    if s != [] {
      var head := if IsAsciiLetter(s[0]) || s[0] == ' ' then [s[0]] else [];
      LettersOfConcat(head, KeepAlphaSpace(s[1..]));
      KeepAlphaSpaceKeepsLetters(s[1..]);
    }
  }

  lemma {:induction false} KeepAlphaSpaceIdentity(s: string)
    requires LettersAndSpaces(s)
    ensures KeepAlphaSpace(s) == s
  {
    if s != [] {
      KeepAlphaSpaceIdentity(s[1..]);
    }
  }

  lemma LettersOfLower(s: string)
    ensures Letters(ToLower(s)) == ToLower(Letters(s))
    decreases |s|
  {
    if s != [] {
      assert ToLower(s)[1..] == ToLower(s[1..]);
      LettersOfLower(s[1..]);
      var head := if IsAsciiLetter(s[0]) then [s[0]] else [];
      assert ToLower(head + Letters(s[1..])) == ToLower(head) + ToLower(Letters(s[1..]));
    }
  }

  lemma LowerKeepsShape(s: string)
    requires LettersAndSpaces(s)
    ensures LettersAndSpaces(ToLower(s))
    ensures forall i :: 0 <= i < |s| ==> (ToLower(s)[i] == ' ' <==> s[i] == ' ')
    ensures forall i :: 0 <= i < |s| && s[i] != ' ' ==> 'a' <= ToLower(s)[i] <= 'z'
  {
  }

  lemma LowerIdentity(s: string)
    requires forall i :: 0 <= i < |s| ==> s[i] == ' ' || 'a' <= s[i] <= 'z'
    ensures ToLower(s) == s
  {
  }

  /** On letters and spaces, trim removes only spaces. */
  lemma {:induction false} TrimKeepsLetters(s: string)
    requires LettersAndSpaces(s)
    ensures LettersAndSpaces(Trim(s))
    ensures Letters(Trim(s)) == Letters(s)
  {
    var l := TrimLeft(s);
    TrimLeftKeepsLetters(s);
    TrimRightKeepsLetters(l);
  }

  lemma {:induction false} TrimLeftKeepsLetters(s: string)
    requires LettersAndSpaces(s)
    ensures LettersAndSpaces(TrimLeft(s))
    ensures Letters(TrimLeft(s)) == Letters(s)
  {
    if s != [] && s[0] <= ' ' {
      TrimLeftKeepsLetters(s[1..]);
    }
  }

  lemma {:induction false} TrimRightKeepsLetters(s: string)
    requires LettersAndSpaces(s)
    ensures LettersAndSpaces(TrimRight(s))
    ensures Letters(TrimRight(s)) == Letters(s)
  {
    if s != [] && s[|s| - 1] <= ' ' {
      var init := s[..|s| - 1];
      TrimRightKeepsLetters(init);
      assert s == init + [s[|s| - 1]];
      LettersOfConcat(init, [s[|s| - 1]]);
    }
  }

  /** Trim only removes characters. */
  lemma TrimChars(s: string)
    ensures forall c :: c in Trim(s) ==> c in s
  {
    var l := TrimLeft(s);
    var r := TrimRight(l);
    forall c | c in r ensures c in s {
      var i :| 0 <= i < |r| && r[i] == c;
      assert l[i] == c;
      assert s[|s| - |l| + i] == c;
    }
  }

  lemma TrimIdentity(s: string)
    requires s == [] || (s[0] > ' ' && s[|s| - 1] > ' ')
    ensures Trim(s) == s
  {
  }

  // ---------------------------------------------------------------------
  // Lemmas: words
  // ---------------------------------------------------------------------

  /** Splitting into words loses exactly the spaces. */
  lemma {:induction false} ConcatOfWords(s: string)
    requires LettersAndSpaces(s)
    ensures Concat(Words(s)) == Letters(s)
    decreases |s|
  {
    if s != [] {
      if s[0] == ' ' {
        ConcatOfWords(s[1..]);
      } else {
        var w := LeadingWord(s);
        var rest := s[|w|..];
        assert s == w + rest;
        ConcatOfWords(rest);
        LettersOfConcat(w, rest);
        LettersOfWordSelf(w);
      }
    }
  }

  lemma {:induction false} LettersOfWordSelf(w: string)
    requires forall i :: 0 <= i < |w| ==> IsAsciiLetter(w[i])
    ensures Letters(w) == w
  {
    if w != [] {
      LettersOfWordSelf(w[1..]);
    }
  }

  lemma {:induction false} LeadingWordOfJoin(w: string, x: string)
    requires ' ' !in w
    requires x == [] || x[0] == ' '
    ensures LeadingWord(w + x) == w
  {
    if w != [] {
      assert (w + x)[1..] == w[1..] + x;
      LeadingWordOfJoin(w[1..], x);
    }
  }

  /** A word ends at the first space, whatever follows it. */
  lemma {:induction false} LeadingWordOfConcat(a: string, x: string)
    requires x == [] || x[0] == ' '
    ensures LeadingWord(a + x) == LeadingWord(a)
  {
    if a == [] {
      assert a + x == x;
    } else if a[0] != ' ' {
      assert (a + x)[0] == a[0] && (a + x)[1..] == a[1..] + x;
      LeadingWordOfConcat(a[1..], x);
    }
  }

  /** A non-empty space-free word splits into itself. */
  lemma WordsOfWord(w: string)
    requires w != [] && ' ' !in w
    ensures Words(w) == [w]
  {
    LeadingWordOfJoin(w, "");
    assert w + "" == w;
    assert w[|w|..] == [];
  }

  /** A space always separates: splitting `a`, a space and `b` splits each
    * side on its own, however many spaces surround the separator. */
  lemma {:induction false} WordsOfSpaceConcat(a: string, b: string)
    ensures Words(a + " " + b) == Words(a) + Words(b)
    decreases |a|
  {
    var s := a + " " + b;
    if a == [] {
      assert s == " " + b && s[1..] == b;
    } else if a[0] == ' ' {
      assert s[0] == ' ' && s[1..] == a[1..] + " " + b;
      WordsOfSpaceConcat(a[1..], b);
    } else {
      assert s == a + (" " + b);
      LeadingWordOfConcat(a, " " + b);
      var w := LeadingWord(a);
      assert s[0] == a[0] && w[0] == a[0];
      assert s[|w|..] == a[|w|..] + " " + b;
      WordsOfSpaceConcat(a[|w|..], b);
    }
  }

  /** Joining non-empty space-free words and splitting again gives the words back. */
  lemma {:induction false} WordsOfJoin(ws: seq<string>)
    requires forall w :: w in ws ==> w != [] && ' ' !in w
    ensures Words(Join(ws)) == ws
  {
    if ws != [] {
      var w := ws[0];
      if |ws| == 1 {
        LeadingWordOfJoin(w, "");
        assert w + "" == w;
        assert Join(ws)[|w|..] == [];
      } else {
        var tail := Join(ws[1..]);
        var s := w + " " + tail;
        assert s == w + (" " + tail);
        LeadingWordOfJoin(w, " " + tail);
        assert s[|w|..] == " " + tail;
        assert (" " + tail)[1..] == tail;
        WordsOfJoin(ws[1..]);
      }
    }
  }

  lemma {:induction false} JoinShape(ws: seq<string>)
    requires forall i :: 0 <= i < |ws| ==> ws[i] != [] && LowerWord(ws[i])
    ensures Join(ws) == [] <==> ws == []
    ensures forall i :: 0 <= i < |Join(ws)| ==> Join(ws)[i] == ' ' || 'a' <= Join(ws)[i] <= 'z'
    ensures ws != [] ==> Join(ws)[0] == ws[0][0] && Join(ws)[|Join(ws)| - 1] == ws[|ws| - 1][|ws[|ws| - 1]| - 1]
  {
    if |ws| > 1 {
      JoinShape(ws[1..]);
      var w, tail := ws[0], Join(ws[1..]);
      assert Join(ws) == w + " " + tail;
      forall i | 0 <= i < |Join(ws)|
        ensures Join(ws)[i] == ' ' || 'a' <= Join(ws)[i] <= 'z'
      {
        if i < |w| {
          assert Join(ws)[i] == w[i];
        } else if i > |w| {
          assert Join(ws)[i] == tail[i - |w| - 1];
        }
      }
    }
  }

  // ---------------------------------------------------------------------
  // Lemmas: the stopword pass
  // ---------------------------------------------------------------------

  lemma {:induction false} RemoveStopwordsSubset(words: seq<string>, stopwords: seq<string>)
    ensures forall w :: w in RemoveStopwords(words, stopwords) ==> w in words && !IsStopword(w, stopwords)
  {
    if words != [] {
      RemoveStopwordsSubset(words[..|words| - 1], stopwords);
    }
  }

  /** The pass distributes over concatenation: it keeps the order of the words. */
  lemma {:induction false} RemoveStopwordsOfConcat(a: seq<string>, b: seq<string>, stopwords: seq<string>)
    ensures RemoveStopwords(a + b, stopwords) == RemoveStopwords(a, stopwords) + RemoveStopwords(b, stopwords)
    decreases |b|
  {
    if b == [] {
      assert a + b == a;
    } else {
      assert (a + b)[..|a + b| - 1] == a + b[..|b| - 1];
      RemoveStopwordsOfConcat(a, b[..|b| - 1], stopwords);
    }
  }

  /** The pass keeps every occurrence of a non-stopword and none of a stopword. */
  lemma {:induction false} RemoveStopwordsCounts(words: seq<string>, stopwords: seq<string>, w: string)
    ensures multiset(RemoveStopwords(words, stopwords))[w]
         == if IsStopword(w, stopwords) then 0 else multiset(words)[w]
  {
    if words != [] {
      var init, last := words[..|words| - 1], words[|words| - 1];
      var r := RemoveStopwords(init, stopwords);
      RemoveStopwordsCounts(init, stopwords, w);
      MultiplicityLast(words, w);
      if IsStopword(last, stopwords) {
        assert RemoveStopwords(words, stopwords) == r;
      } else {
        assert RemoveStopwords(words, stopwords) == r + [last];
        MultiplicitySnoc(r, last, w);
      }
    }
  }

  lemma MultiplicityLast(s: seq<string>, w: string)
    requires s != []
    ensures multiset(s)[w] == multiset(s[..|s| - 1])[w] + (if s[|s| - 1] == w then 1 else 0)
  {
    assert s == s[..|s| - 1] + [s[|s| - 1]];
    MultiplicitySnoc(s[..|s| - 1], s[|s| - 1], w);
  }

  lemma MultiplicitySnoc(s: seq<string>, x: string, w: string)
    ensures multiset(s + [x])[w] == multiset(s)[w] + (if x == w then 1 else 0)
  {
    assert multiset(s + [x]) == multiset(s) + multiset{x};
  }

  /** Tokens that are not stopwords are all kept. */
  lemma {:induction false} RemoveStopwordsIdentity(words: seq<string>, stopwords: seq<string>)
    requires forall w :: w in words ==> !IsStopword(w, stopwords)
    ensures RemoveStopwords(words, stopwords) == words
  {
    if words != [] {
      var init, last := words[..|words| - 1], words[|words| - 1];
      assert words == init + [last];
      assert forall w :: w in init ==> w in words;
      RemoveStopwordsIdentity(init, stopwords);
      assert last in words;
      assert RemoveStopwords(words, stopwords) == RemoveStopwords(init, stopwords) + [last];
    }
  }

  lemma RemoveStopwordsOfEmptyToken(stopwords: seq<string>)
    ensures RemoveStopwords([""], stopwords) == if IsStopword("", stopwords) then [] else [""]
  {
    assert [""][..0] == [];
  }

  lemma {:induction false} RemoveNoStopwords(words: seq<string>)
    ensures RemoveStopwords(words, []) == words
  {
    if words != [] {
      RemoveNoStopwords(words[..|words| - 1]);
      assert !IsStopword(words[|words| - 1], []);
      assert words[..|words| - 1] + [words[|words| - 1]] == words;
    }
  }

  // ---------------------------------------------------------------------
  // Lemmas: properties of clean
  // ---------------------------------------------------------------------

  /** Every character is a space or a lowercase ASCII letter. */
  predicate LowerOrSpace(s: string) {
    forall i :: 0 <= i < |s| ==> s[i] == ' ' || 'a' <= s[i] <= 'z'
  }

  /** The text that reaches trim: lowercase letters and spaces, with the
    * letters of the input, lowercased, in order. */
  lemma LoweredText(text: string)
    ensures LowerOrSpace(ToLower(KeepAlphaSpace(text)))
    ensures Letters(ToLower(KeepAlphaSpace(text))) == ToLower(Letters(text))
  {
    var k := KeepAlphaSpace(text);
    KeepAlphaSpaceKeepsLetters(text);
    LettersOfLower(k);
    LowerKeepsShape(k);
  }

  /** Trimming and splitting lowercase letters and spaces. */
  lemma SplitOfLowered(l: string)
    requires LowerOrSpace(l)
    ensures Letters(l) == [] ==> TrimSplit(l) == [""]
    ensures Letters(l) != [] ==> forall w :: w in TrimSplit(l) ==> w != [] && LowerWord(w)
    ensures forall w :: w in TrimSplit(l) ==> LowerWord(w)
  {
    var t := Trim(l);
    assert LettersAndSpaces(l);
    TrimKeepsLetters(l);
    if t == [] {
      assert Letters(t) == [];
    } else {
      assert IsAsciiLetter(t[0]);
      assert Letters(t) == [t[0]] + Letters(t[1..]);
      TrimChars(l);
      forall w | w in Words(t)
        ensures LowerWord(w)
      {
        forall i | 0 <= i < |w| ensures 'a' <= w[i] <= 'z' {
          assert w[i] in w;
          assert w[i] in l;
        }
      }
    }
  }

  /** Trimming and splitting lowercase letters and spaces loses exactly the spaces. */
  lemma ConcatOfSplit(l: string)
    requires LowerOrSpace(l)
    ensures Concat(TrimSplit(l)) == Letters(l)
  {
    var t := Trim(l);
    assert LettersAndSpaces(l);
    TrimKeepsLetters(l);
    if t == [] {
      assert Concat([""]) == "";
      assert Letters(t) == [];
    } else {
      ConcatOfWords(t);
    }
  }

  /** Tokens is `[""]` when the text has no letter, and otherwise the
    * non-empty words of the lowercased letters-and-spaces text. */
  lemma TokensShape(text: string)
    ensures Letters(text) == [] ==> Tokens(text) == [""]
    ensures Letters(text) != [] ==> forall w :: w in Tokens(text) ==> w != [] && LowerWord(w)
    ensures forall w :: w in Tokens(text) ==> LowerWord(w)
  {
    var l := ToLower(KeepAlphaSpace(text));
    LoweredText(text);
    SplitOfLowered(l);
    assert |ToLower(Letters(text))| == |Letters(text)|;
  }


  /** Text without spaces gives one token: its letters, lowercased, with the
    * deleted characters closing up rather than splitting the token. */
  lemma TokensOfSpaceFreeText(text: string)
    requires ' ' !in text && Letters(text) != []
    ensures Tokens(text) == [ToLower(Letters(text))]
  {
    KeepAlphaSpaceWithoutSpaces(text);
    LowerLetters(text);
    var w := ToLower(Letters(text));
    TrimIdentity(w);
    WordsOfWord(w);
    assert TrimSplit(w) == [w];
    assert Tokens(text) == TrimSplit(w);
  }

  /** The lowercased letters of a text with a letter: a non-empty word of
    * `a`-`z` that starts and ends after U+0020. */
  lemma LowerLetters(text: string)
    requires Letters(text) != []
    ensures var w := ToLower(Letters(text));
      w != [] && ' ' !in w && w[0] > ' ' && w[|w| - 1] > ' '
  {
    LettersAreLetters(text);
    var w := ToLower(Letters(text));
    assert forall i :: 0 <= i < |w| ==> 'a' <= w[i] <= 'z';
  }

  /** Every token clean returns is made of lowercase ASCII letters. */
  lemma CleanTokensAreLowerWords(text: string, stopwords: seq<string>)
    ensures forall w :: w in CleanSpec(text, stopwords) ==> LowerWord(w)
  {
    TokensShape(text);
    RemoveStopwordsSubset(Tokens(text), stopwords);
  }

  /** No token clean returns equals a lowercased stopword. */
  lemma CleanDropsStopwords(text: string, stopwords: seq<string>)
    ensures forall w, s :: w in CleanSpec(text, stopwords) && s in stopwords ==> w != ToLower(s)
  {
    RemoveStopwordsSubset(Tokens(text), stopwords);
    forall w, s | w in CleanSpec(text, stopwords) && s in stopwords
      ensures w != ToLower(s)
    {
      var i :| 0 <= i < |stopwords| && stopwords[i] == s;
      LowerAllAt(stopwords, i);
      assert !IsStopword(w, stopwords);
    }
  }

  /** If the filtered text has a letter, every token is non-empty; otherwise
    * the result is `[""]`, or `[]` when the empty string is a stopword. */
  lemma CleanEmptyToken(text: string, stopwords: seq<string>)
    ensures Letters(KeepAlphaSpace(text)) != [] ==> forall w :: w in CleanSpec(text, stopwords) ==> w != []
    ensures Letters(KeepAlphaSpace(text)) == [] ==>
      CleanSpec(text, stopwords) == if IsStopword("", stopwords) then [] else [""]
  {
    KeepAlphaSpaceKeepsLetters(text);
    TokensShape(text);
    RemoveStopwordsSubset(Tokens(text), stopwords);
    if Letters(text) == [] {
      RemoveStopwordsOfEmptyToken(stopwords);
    }
  }

  /** With no stopwords, the tokens concatenated are the lowercased letters of the input. */
  lemma CleanConcatIsLetters(text: string)
    ensures Concat(CleanSpec(text, [])) == ToLower(Letters(text))
  {
    RemoveNoStopwords(Tokens(text));
    LoweredText(text);
    ConcatOfSplit(ToLower(KeepAlphaSpace(text)));
  }

  /** Text that is already lowercase letters and single-spaced words is only split. */
  lemma TokensOfCleanText(s: string)
    requires LowerOrSpace(s)
    requires s != [] && s[0] != ' ' && s[|s| - 1] != ' '
    ensures Tokens(s) == Words(s)
  {
    assert LettersAndSpaces(s);
    KeepAlphaSpaceIdentity(s);
    LowerIdentity(s);
    TrimIdentity(s);
  }

  lemma CleanOfEmptyText(stopwords: seq<string>)
    ensures CleanSpec("", stopwords) == if IsStopword("", stopwords) then [] else [""]
  {
    assert KeepAlphaSpace("") == "";
    assert Tokens("") == [""];
    RemoveStopwordsOfEmptyToken(stopwords);
  }

  /** Joining non-empty lowercase words and splitting them again gives them back. */
  lemma TokensOfJoin(ws: seq<string>)
    requires ws != []
    requires forall i :: 0 <= i < |ws| ==> ws[i] != [] && LowerWord(ws[i])
    ensures Tokens(Join(ws)) == ws
  {
    var s := Join(ws);
    JoinShape(ws);
    assert s[0] != ' ' && s[|s| - 1] != ' ';
    TokensOfCleanText(s);
    forall w | w in ws ensures w != [] && ' ' !in w {
      var i :| 0 <= i < |ws| && ws[i] == w;
    }
    WordsOfJoin(ws);
  }

  /** Joining lowercase non-stopword words and cleaning the result gives the words back. */
  lemma CleanOfJoinedWords(ws: seq<string>, stopwords: seq<string>)
    requires ws != []
    requires forall i :: 0 <= i < |ws| ==> ws[i] != [] && LowerWord(ws[i])
    requires forall w :: w in ws ==> !IsStopword(w, stopwords)
    ensures CleanSpec(Join(ws), stopwords) == ws
  {
    TokensOfJoin(ws);
    RemoveStopwordsIdentity(ws, stopwords);
  }

  /** clean is idempotent on anything but an all-stopword result: when every
    * token was a stopword, the joined text is empty and splits into `[""]`. */
  lemma CleanIdempotent(text: string, stopwords: seq<string>)
    ensures var r := CleanSpec(text, stopwords);
      CleanSpec(Join(r), stopwords)
      == if r == [] && !IsStopword("", stopwords) then [""] else r
  {
    var r := CleanSpec(text, stopwords);
    if r == [] {
      assert Join(r) == "";
      CleanOfEmptyText(stopwords);
    } else if "" in r {
      CleanEmptyToken(text, stopwords);
      assert r == [""];
      assert Join(r) == "";
      CleanOfEmptyText(stopwords);
    } else {
      CleanTokensAreLowerWords(text, stopwords);
      RemoveStopwordsSubset(Tokens(text), stopwords);
      assert forall i :: 0 <= i < |r| ==> r[i] in r;
      CleanOfJoinedWords(r, stopwords);
    }
  }

  /** Deletion works character by character: filtering a concatenation
    * filters each part and concatenates the results. */
  lemma {:induction false} KeepAlphaSpaceOfConcat(a: string, b: string)
    ensures KeepAlphaSpace(a + b) == KeepAlphaSpace(a) + KeepAlphaSpace(b)
  {
    if a == [] {
      assert a + b == b;
    } else {
      var head := if IsAsciiLetter(a[0]) || a[0] == ' ' then [a[0]] else [];
      assert (a + b)[0] == a[0] && (a + b)[1..] == a[1..] + b;
      assert KeepAlphaSpace(a + b) == head + KeepAlphaSpace(a[1..] + b);
      KeepAlphaSpaceOfConcat(a[1..], b);
      assert KeepAlphaSpace(a) == head + KeepAlphaSpace(a[1..]);
    }
  }

  /** One character: a letter or a space is kept, any other character leaves
    * nothing behind. With KeepAlphaSpaceOfConcat this fixes the filter on
    * every input. */
  lemma KeepAlphaSpaceOfChar(c: char)
    ensures KeepAlphaSpace([c]) == if IsAsciiLetter(c) || c == ' ' then [c] else []
  {
    assert [c][1..] == [];
  }

  /** On text without spaces the filter keeps exactly the letters: the
    * characters it deletes leave no gap between their neighbours. */
  lemma {:induction false} KeepAlphaSpaceWithoutSpaces(s: string)
    requires ' ' !in s
    ensures KeepAlphaSpace(s) == Letters(s)
  {
    if s != [] {
      assert forall c :: c in s[1..] ==> c in s;
      KeepAlphaSpaceWithoutSpaces(s[1..]);
    }
  }

  lemma {:induction false} LettersAreLetters(s: string)
    ensures forall i :: 0 <= i < |Letters(s)| ==> IsAsciiLetter(Letters(s)[i])
  {
    if s != [] {
      LettersAreLetters(s[1..]);
      var head := if IsAsciiLetter(s[0]) then [s[0]] else [];
      assert Letters(s) == head + Letters(s[1..]);
    }
  }

  // ---------------------------------------------------------------------
  // A worked example
  // ---------------------------------------------------------------------

  lemma KeepScenario()
    ensures KeepAlphaSpace("The Vaccine is Safe 123") == "The Vaccine is Safe "
  {
    var kept := "The Vaccine is Safe ";
    assert "The Vaccine is Safe 123" == kept + "123";
    KeepAlphaSpaceOfConcat(kept, "123");
    KeptScenario();
    DigitsScenario();
  }

  lemma KeptScenario()
    ensures KeepAlphaSpace("The Vaccine is Safe ") == "The Vaccine is Safe "
  {
    assert LettersAndSpaces("The Vaccine is Safe ");
    KeepAlphaSpaceIdentity("The Vaccine is Safe ");
  }

  lemma DigitsScenario()
    ensures KeepAlphaSpace("123") == ""
  {
    assert "123"[1..] == "23" && "23"[1..] == "3" && "3"[1..] == "";
  }

  lemma LowerScenario()
    ensures ToLower("The Vaccine is Safe ") == "the vaccine is safe "
  {
  }

  lemma TrimScenario()
    ensures Trim("the vaccine is safe ") == "the vaccine is safe"
  {
    assert TrimLeft("the vaccine is safe ") == "the vaccine is safe ";
    assert TrimRight("the vaccine is safe ") == "the vaccine is safe";
  }

  lemma SplitScenario()
    ensures Words("the vaccine is safe") == ["the", "vaccine", "is", "safe"]
  {
    var words := ["the", "vaccine", "is", "safe"];
    assert Join(words) == "the vaccine is safe";
    WordsOfJoin(words);
  }

  lemma StopScenario()
    ensures RemoveStopwords(["the", "vaccine", "is", "safe"], ["the", "is"]) == ["vaccine", "safe"]
  {
    var stopwords := ["the", "is"];
    assert ToLower(stopwords[0]) == "the" && ToLower(stopwords[1]) == "is";
    assert IsStopword("the", stopwords) && IsStopword("is", stopwords);
    assert !IsStopword("vaccine", stopwords) && !IsStopword("safe", stopwords);
    var w1, w2, w3, w4 := ["the"], ["the", "vaccine"], ["the", "vaccine", "is"], ["the", "vaccine", "is", "safe"];
    assert w1[..0] == [] && w2[..1] == w1 && w3[..2] == w2 && w4[..3] == w3;
    assert RemoveStopwords(w1, stopwords) == [];
    assert RemoveStopwords(w2, stopwords) == ["vaccine"];
    assert RemoveStopwords(w3, stopwords) == ["vaccine"];
  }

  /** clean("The Vaccine is Safe 123") with the stopwords "the" and "is". */
  lemma StopwordScenario()
    ensures CleanSpec("The Vaccine is Safe 123", ["the", "is"]) == ["vaccine", "safe"]
  {
    KeepScenario();
    LowerScenario();
    TrimScenario();
    SplitScenario();
    StopScenario();
  }
}
