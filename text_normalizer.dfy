/**
 * `clean_text` (app.py:20-26): lowercase, delete everything but ASCII letters
 * and whitespace, split on whitespace, drop stopwords, lemmatise, join with
 * single spaces. The stopword list and the lemmatiser are external resources
 * and stay abstract: a set of words and an arbitrary function on words.
 */
module TextNormalizer {
  import opened PyStr

  predicate IsAsciiLetter(c: char) { IsUpper(c) || IsLower(c) }

  /** A character the pattern `[^a-zA-Z\s]` does not match, so `re.sub` keeps it. */
  predicate Kept(c: char) { IsAsciiLetter(c) || IsSpace(c) }

  /** A word made only of `a`-`z`. */
  predicate IsLowerWord(t: string) {
    |t| > 0 && forall i :: 0 <= i < |t| ==> IsLower(t[i])
  }

  /** `re.sub(r'[^a-zA-Z\s]', '', s)`: every other character is deleted, nothing is inserted. */
  function DeleteNonLetters(s: string): (r: string)
    ensures |r| <= |s|
    ensures forall i :: 0 <= i < |r| ==> Kept(r[i])
    ensures forall c :: c in r <==> c in s && Kept(c)
  {
    if s == [] then []
    else (if Kept(s[0]) then [s[0]] else []) + DeleteNonLetters(s[1..])
  }

  /** `[t for t in tokens if t not in stop_words]`. */
  function DropStopwords(tokens: seq<string>, stop: set<string>): (r: seq<string>)
    ensures |r| <= |tokens|
    ensures forall t :: t in r <==> t in tokens && t !in stop
  {
    if tokens == [] then []
    else (if tokens[0] in stop then [] else [tokens[0]]) + DropStopwords(tokens[1..], stop)
  }

  /** The tokens that reach the lemmatiser (app.py:21-24), in the order `split()` yields them. */
  function LemmatiserInput(text: string, stop: set<string>): seq<string> {
    DropStopwords(Split(DeleteNonLetters(Lower(text))), stop)
  }

  /** `[lemmatizer.lemmatize(t) for t in tokens]`. */
  function Lemmatise(tokens: seq<string>, lemmatize: string -> string): (r: seq<string>)
    ensures |r| == |tokens|
    ensures forall i :: 0 <= i < |tokens| ==> r[i] == lemmatize(tokens[i])
  {
    seq(|tokens|, i requires 0 <= i < |tokens| => lemmatize(tokens[i]))
  }

  /** The lemmatiser is applied token by token. */
  lemma LemmatiseAppend(a: seq<string>, b: seq<string>, lemmatize: string -> string)
    ensures Lemmatise(a + b, lemmatize) == Lemmatise(a, lemmatize) + Lemmatise(b, lemmatize)
  {
    var l := Lemmatise(a + b, lemmatize);
    forall i | 0 <= i < |l| ensures l[i] == (Lemmatise(a, lemmatize) + Lemmatise(b, lemmatize))[i] {
      if i < |a| { assert (a + b)[i] == a[i]; } else { assert (a + b)[i] == b[i - |a|]; }
    }
  }

  /** Tokens that are their own lemmas come out unchanged. */
  lemma LemmatiseFixes(tokens: seq<string>, lemmatize: string -> string)
    requires forall i :: 0 <= i < |tokens| ==> lemmatize(tokens[i]) == tokens[i]
    ensures Lemmatise(tokens, lemmatize) == tokens
  {
    var l := Lemmatise(tokens, lemmatize);
    forall i | 0 <= i < |l| ensures l[i] == tokens[i] {
      assert l[i] == lemmatize(tokens[i]);
    }
  }

  /** `clean_text(text)`. */
  function CleanText(text: string, stop: set<string>, lemmatize: string -> string): string {
    SpaceJoin(Lemmatise(LemmatiserInput(text, stop), lemmatize))
  }

  /** A lemmatiser that maps every word of `a`-`z` to a non-empty word without whitespace. */
  ghost predicate YieldsTokens(lemmatize: string -> string) {
    forall t :: IsLowerWord(t) ==> IsToken(lemmatize(t))
  }

  /** The ASCII letters of `s`, lowercased, in order. */
  function LowerLetters(s: string): string {
    if s == [] then []
    else (if IsAsciiLetter(s[0]) then [LowerChar(s[0])] else []) + LowerLetters(s[1..])
  }

  /** After lowercasing and the regex deletion only `a`-`z` and whitespace are
      left; every whitespace character and every lowercased letter of the text
      is still there, and nothing else is. */
  lemma AfterDeletion(text: string)
    ensures forall c :: c in DeleteNonLetters(Lower(text)) ==> IsLower(c) || IsSpace(c)
    ensures forall i :: 0 <= i < |text| && IsAsciiLetter(text[i]) ==> LowerChar(text[i]) in DeleteNonLetters(Lower(text))
    ensures forall i :: 0 <= i < |text| && IsSpace(text[i]) ==> text[i] in DeleteNonLetters(Lower(text))
    ensures forall c :: c in DeleteNonLetters(Lower(text)) ==> exists i :: 0 <= i < |text| && c == LowerChar(text[i])
  {
    var low := Lower(text);
    forall i | 0 <= i < |text| ensures low[i] == LowerChar(text[i]) && low[i] in low {}
  }

  /** Every token handed to the lemmatiser is a non-empty word of `a`-`z`
      (so it holds no whitespace) and is not a stopword. */
  lemma {:induction false} LemmatiserInputWords(text: string, stop: set<string>)
    ensures forall i :: 0 <= i < |LemmatiserInput(text, stop)| ==>
      IsLowerWord(LemmatiserInput(text, stop)[i]) && LemmatiserInput(text, stop)[i] !in stop
  {
    var k := DeleteNonLetters(Lower(text));
    var ts := Split(k);
    var r := LemmatiserInput(text, stop);
    forall i | 0 <= i < |r| ensures IsLowerWord(r[i]) && r[i] !in stop {
      var t := r[i];
      assert t in r;
      assert t in ts && t !in stop;
      var n :| 0 <= n < |ts| && ts[n] == t;
      assert IsToken(t);
      forall j | 0 <= j < |t| ensures IsLower(t[j]) {
        SplitChars(k, n, j);
        AfterDeletion(text);
      }
    }
  }

  lemma {:induction false} DropStopwordsAppend(a: seq<string>, b: seq<string>, stop: set<string>)
    ensures DropStopwords(a + b, stop) == DropStopwords(a, stop) + DropStopwords(b, stop)
    decreases |a|
  {
    if a == [] {
      assert a + b == b;
    } else {
      assert (a + b)[1..] == a[1..] + b;
      DropStopwordsAppend(a[1..], b, stop);
    }
  }

  lemma {:induction false} DropStopwordsKeepsAll(ts: seq<string>, stop: set<string>)
    requires forall i :: 0 <= i < |ts| ==> ts[i] !in stop
    ensures DropStopwords(ts, stop) == ts
    decreases |ts|
  {
    if ts != [] {
      DropStopwordsKeepsAll(ts[1..], stop);
    }
  }

  lemma {:induction false} DeletionOfLowered(s: string)
    ensures RemoveSpaces(DeleteNonLetters(Lower(s))) == LowerLetters(s)
    decreases |s|
  {
    if s != [] {
      assert Lower(s) == [LowerChar(s[0])] + Lower(s[1..]);
      DeletionOfLowered(s[1..]);
      var head := if Kept(LowerChar(s[0])) then [LowerChar(s[0])] else [];
      assert DeleteNonLetters(Lower(s)) == head + DeleteNonLetters(Lower(s[1..]));
      RemoveSpacesAppend(head, DeleteNonLetters(Lower(s[1..])));
    }
  }

  /** With no stopwords, the tokens handed to the lemmatiser spell out the
      text's ASCII letters, lowercased, in their original order; and dropping
      stopwords only removes whole tokens, keeping the order of the rest. */
  lemma LemmatiserInputOrder(text: string, stop: set<string>)
    ensures Concat(LemmatiserInput(text, {})) == LowerLetters(text)
    ensures forall a, b :: Split(DeleteNonLetters(Lower(text))) == a + b ==>
      LemmatiserInput(text, stop) == DropStopwords(a, stop) + DropStopwords(b, stop)
  {
    var ts := Split(DeleteNonLetters(Lower(text)));
    DropStopwordsKeepsAll(ts, {});
    SplitConcat(DeleteNonLetters(Lower(text)));
    DeletionOfLowered(text);
    forall a, b | ts == a + b
      ensures LemmatiserInput(text, stop) == DropStopwords(a, stop) + DropStopwords(b, stop)
    {
      DropStopwordsAppend(a, b, stop);
    }
  }

  /** The output is the lemmas of the non-stopword tokens, in source order,
      joined by exactly one space, with no whitespace at either end, provided
      the lemmatiser returns non-empty words without whitespace. */
  lemma CleanTextShape(text: string, stop: set<string>, lemmatize: string -> string)
    requires YieldsTokens(lemmatize)
    ensures var r := CleanText(text, stop, lemmatize);
      && Split(r) == Lemmatise(LemmatiserInput(text, stop), lemmatize)
      && (r == "" <==> LemmatiserInput(text, stop) == [])
      && (r != "" ==> !IsSpace(r[0]) && !IsSpace(r[|r| - 1]))
      && (forall i :: 0 <= i < |r| && IsSpace(r[i]) ==> r[i] == ' ')
      && (forall i :: 0 <= i < |r| - 1 ==> !(IsSpace(r[i]) && IsSpace(r[i + 1])))
  {
    var ts := LemmatiserInput(text, stop);
    var ls := Lemmatise(ts, lemmatize);
    LemmatiserInputWords(text, stop);
    assert forall i :: 0 <= i < |ls| ==> IsToken(ls[i]) by {
      forall i | 0 <= i < |ls| ensures IsToken(ls[i]) {
        assert IsLowerWord(ts[i]);
      }
    }
    SplitSpaceJoin(ls);
    SpaceJoinOfTokens(ls);
  }

  /** Text without an ASCII letter (the empty string, whitespace, digits,
      punctuation) cleans to the empty string. */
  lemma CleanTextWithoutLetters(text: string, stop: set<string>, lemmatize: string -> string)
    requires forall i :: 0 <= i < |text| ==> !IsAsciiLetter(text[i])
    ensures CleanText(text, stop, lemmatize) == ""
  {
    var k := DeleteNonLetters(Lower(text));
    AfterDeletion(text);
    forall i | 0 <= i < |k| ensures IsSpace(k[i]) {
      assert k[i] in k;
      var j :| 0 <= j < |text| && k[i] == LowerChar(text[j]);
    }
  }

  /** The substitution works character by character: deleting from two pieces
      and gluing the results is deleting from the whole, so the kept
      characters keep their order and the whitespace stays between the words
      it separated. */
  lemma {:induction false} DeleteNonLettersAppend(a: string, b: string)
    ensures DeleteNonLetters(a + b) == DeleteNonLetters(a) + DeleteNonLetters(b)
    decreases |a|
  {
    if a == [] {
      assert a + b == b;
    } else {
      assert (a + b)[1..] == a[1..] + b;
      DeleteNonLettersAppend(a[1..], b);
    }
  }

  /** On one character the substitution keeps it exactly when the pattern does not match it. */
  lemma DeleteNonLettersOfChar(c: char)
    ensures DeleteNonLetters([c]) == if Kept(c) then [c] else []
  {
    assert [c][1..] == [];
  }

  lemma {:induction false} DeleteNonLettersKeepsAll(s: string)
    requires forall i :: 0 <= i < |s| ==> Kept(s[i])
    ensures DeleteNonLetters(s) == s
    decreases |s|
  {
    if s != [] {
      DeleteNonLettersKeepsAll(s[1..]);
    }
  }

  /** Already clean text, made of words of `a`-`z` that are not stopwords and
      that the lemmatiser leaves alone, is returned unchanged. */
  lemma CleanTextFixpoint(ts: seq<string>, stop: set<string>, lemmatize: string -> string)
    requires forall i :: 0 <= i < |ts| ==> IsLowerWord(ts[i]) && ts[i] !in stop && lemmatize(ts[i]) == ts[i]
    ensures CleanText(SpaceJoin(ts), stop, lemmatize) == SpaceJoin(ts)
  {
    var s := SpaceJoin(ts);
    forall k | 0 <= k < |s| ensures s[k] == ' ' || IsLower(s[k]) {
      SpaceJoinChars(ts, k);
    }
    assert Lower(s) == s;
    DeleteNonLettersKeepsAll(s);
    SplitSpaceJoin(ts);
    DropStopwordsKeepsAll(ts, stop);
    LemmatiseFixes(ts, lemmatize);
  }

  /** `clean_text` is idempotent when the lemmatiser maps non-stopword words to
      non-stopword words that it leaves alone on a second application. */
  lemma CleanTextIdempotent(text: string, stop: set<string>, lemmatize: string -> string)
    requires forall t :: IsLowerWord(t) && t !in stop ==>
      IsLowerWord(lemmatize(t)) && lemmatize(t) !in stop && lemmatize(lemmatize(t)) == lemmatize(t)
    ensures CleanText(CleanText(text, stop, lemmatize), stop, lemmatize) == CleanText(text, stop, lemmatize)
  {
    var ls := Lemmatise(LemmatiserInput(text, stop), lemmatize);
    LemmatiserInputWords(text, stop);
    CleanTextFixpoint(ls, stop, lemmatize);
  }

  /** The stopword filter runs before lemmatisation, so a lemma may itself be a
      stopword, and then a second cleaning drops it. */
  lemma LemmaMayBeStopword()
    ensures var lemmatize := (t: string) => "a";
      && CleanText("b", {"a"}, lemmatize) == "a"
      && CleanText("a", {"a"}, lemmatize) == ""
  {
    var lemmatize := (t: string) => "a";
    assert Lower("b") == "b";
    assert DeleteNonLetters("b") == "b";
    assert Word("b") == "b";
    assert Split("b") == ["b"];
    assert Lower("a") == "a";
    assert DeleteNonLetters("a") == "a";
    assert Word("a") == "a";
    assert Split("a") == ["a"];
  }
}
