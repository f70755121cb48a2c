/** LemmFactory: turns the words of a text into lemmas with the help of a
    morphology engine. The engine is a parameter: `morphInfo` gives the
    morphological descriptions of a word (`lemma|tags ...`), `normalForms`
    its dictionary forms. */
module LemmFactory {
  import opened Util

  datatype Morphology = Morphology(morphInfo: string -> seq<string>, normalForms: string -> seq<string>)

  /** What `substring(0, -1)` throws. */
  const IndexOutOfBounds: string := "StringIndexOutOfBoundsException"

  /** `servicePartExist`: the regular expression `.*(СОЮЗ|МЕЖД|ПРЕДЛ|ЧАСТ).*`
      matches the whole description. Its `.` matches no line terminator, so a
      description holding one never matches. */
  predicate ServicePartExist(lemm: string) {
    !HasLineTerminator(lemm) &&
    (Contains(lemm, "СОЮЗ") || Contains(lemm, "МЕЖД") || Contains(lemm, "ПРЕДЛ") || Contains(lemm, "ЧАСТ"))
  }

  /** `getLemmWord`: the part of a description before its first `|`; without
      a `|`, `indexOf` gives -1 and `substring` throws. */
  function GetLemmWord(lemm: string): (r: Result<string, string>)
    ensures r.Success? <==> '|' in lemm
    ensures r.Success? ==> StartsWith(lemm, r.value) && |r.value| < |lemm| &&
                           lemm[|r.value|] == '|' && '|' !in r.value
    ensures r.Failure? ==> r.error == IndexOutOfBounds
  {
    var bar := IndexOfChar(lemm, '|');
    if bar < 0 then Failure(IndexOutOfBounds) else Success(lemm[..bar])
  }

  // ---------------------------------------------------------------------------
  // getLemms
  // ---------------------------------------------------------------------------

  /** The inner loop over the descriptions of one word. */
  function WordLemms(infos: seq<string>): Result<seq<string>, string> {
    if infos == [] then Success([])
    else
      var prev := WordLemms(infos[..|infos| - 1]);
      var info := infos[|infos| - 1];
      if prev.Failure? || ServicePartExist(info) then prev
      else match GetLemmWord(info)
        case Failure(e) => Failure(e)
        case Success(w) => Success(prev.value + [w])
  }

  /** The outer loop: the lemmas of the words in order; the first description
      without `|` aborts the whole call. */
  function Lemms(morph: Morphology, words: seq<string>): Result<seq<string>, string> {
    if words == [] then Success([])
    else
      var prev := Lemms(morph, words[..|words| - 1]);
      var w := words[|words| - 1];
      if prev.Failure? || w == "" then prev
      else match WordLemms(morph.morphInfo(w))
        case Failure(e) => Failure(e)
        case Success(ls) => Success(prev.value + ls)
  }

  /** `getLemms`. */
  method GetLemms(morph: Morphology, wordsToLemmatize: seq<string>) returns (r: Result<seq<string>, string>)
    ensures r == Lemms(morph, wordsToLemmatize)
  {
    var resultLemms: seq<string> := [];
    var tempLemms: seq<string> := [];
    for i := 0 to |wordsToLemmatize|
      invariant Lemms(morph, wordsToLemmatize[..i]) == Success(resultLemms)
      invariant tempLemms == []
    {
      var textPart := wordsToLemmatize[i];
      LemmsStep(morph, wordsToLemmatize, i, resultLemms);
      if textPart == "" {
        continue;
      }
      tempLemms := tempLemms + morph.morphInfo(textPart);
      assert tempLemms == morph.morphInfo(textPart);
      var part := CollectWordLemms(tempLemms);
      if part.Failure? {
        LemmsFailureStays(morph, wordsToLemmatize, i + 1);
        return Failure(part.error);
      }
      resultLemms := resultLemms + part.value;
      tempLemms := [];
    }
    assert wordsToLemmatize[..|wordsToLemmatize|] == wordsToLemmatize;
    r := Success(resultLemms);
  }

  /** The inner loop of `getLemms` over the descriptions of one word. */
  method CollectWordLemms(tempLemms: seq<string>) returns (r: Result<seq<string>, string>)
    ensures r == WordLemms(tempLemms)
  {
    var part: seq<string> := [];
    for j := 0 to |tempLemms|
      invariant WordLemms(tempLemms[..j]) == Success(part)
    {
      var lemm := tempLemms[j];
      WordLemmsStep(tempLemms, j, part);
      if ServicePartExist(lemm) {
        continue;
      }
      var word := GetLemmWord(lemm);
      if word.Failure? {
        WordLemmsFailureStays(tempLemms, j + 1);
        return Failure(word.error);
      }
      part := part + [word.value];
    }
    assert tempLemms[..|tempLemms|] == tempLemms;
    r := Success(part);
  }

  /** One more description: dropped, appended, or the failure of `getLemmWord`. */
  lemma WordLemmsStep(infos: seq<string>, j: nat, part: seq<string>)
    requires j < |infos| && WordLemms(infos[..j]) == Success(part)
    ensures ServicePartExist(infos[j]) ==> WordLemms(infos[..j + 1]) == Success(part)
    ensures !ServicePartExist(infos[j]) && GetLemmWord(infos[j]).Success? ==>
      WordLemms(infos[..j + 1]) == Success(part + [GetLemmWord(infos[j]).value])
    ensures !ServicePartExist(infos[j]) && GetLemmWord(infos[j]).Failure? ==>
      WordLemms(infos[..j + 1]) == Failure(GetLemmWord(infos[j]).error)
  {
    assert infos[..j + 1][..j] == infos[..j];
  }

  /** One more word: skipped when empty, otherwise its lemmas are appended or its failure is the result. */
  lemma LemmsStep(morph: Morphology, words: seq<string>, i: nat, res: seq<string>)
    requires i < |words| && Lemms(morph, words[..i]) == Success(res)
    ensures words[i] == "" ==> Lemms(morph, words[..i + 1]) == Success(res)
    ensures words[i] != "" && WordLemms(morph.morphInfo(words[i])).Success? ==>
      Lemms(morph, words[..i + 1]) == Success(res + WordLemms(morph.morphInfo(words[i])).value)
    ensures words[i] != "" && WordLemms(morph.morphInfo(words[i])).Failure? ==>
      Lemms(morph, words[..i + 1]) == WordLemms(morph.morphInfo(words[i]))
  {
    assert words[..i + 1][..i] == words[..i];
  }

  /** Once a description has failed, the later ones do not matter. */
  lemma {:induction false} WordLemmsFailureStays(infos: seq<string>, n: nat)
    requires n <= |infos| && WordLemms(infos[..n]).Failure?
    ensures WordLemms(infos) == WordLemms(infos[..n])
    decreases |infos| - n
  {
    if n < |infos| {
      var longer := infos[..n + 1];
      assert longer[..n] == infos[..n];
      WordLemmsFailureStays(infos, n + 1);
    } else {
      assert infos[..n] == infos;
    }
  }

  /** Once a word has failed, the later ones do not matter. */
  lemma {:induction false} LemmsFailureStays(morph: Morphology, words: seq<string>, n: nat)
    requires n <= |words| && Lemms(morph, words[..n]).Failure?
    ensures Lemms(morph, words) == Lemms(morph, words[..n])
    decreases |words| - n
  {
    if n < |words| {
      var longer := words[..n + 1];
      assert longer[..n] == words[..n];
      LemmsFailureStays(morph, words, n + 1);
    } else {
      assert words[..n] == words;
    }
  }

  // ---------------------------------------------------------------------------
  // Properties of getLemms
  // ---------------------------------------------------------------------------

  predicate NonEmpty(s: string) { s != "" }

  /** Empty words contribute nothing: the result is that of the non-empty words alone. */
  lemma {:induction false} EmptyWordsIgnored(morph: Morphology, words: seq<string>)
    ensures Lemms(morph, words) == Lemms(morph, Filter(words, NonEmpty))
  {
    if words != [] {
      var init := words[..|words| - 1];
      var w := words[|words| - 1];
      assert words == init + [w];
      EmptyWordsIgnored(morph, init);
      FilterSnoc(init, w, NonEmpty);
      var f := Filter(init, NonEmpty);
      if w != "" {
        assert Filter(words, NonEmpty) == f + [w];
        LemmsSnoc(morph, f, w);
      } else {
        assert Filter(words, NonEmpty) == f;
      }
    }
  }

  /** One more word: the shape of the outer loop. */
  lemma LemmsSnoc(morph: Morphology, words: seq<string>, w: string)
    ensures Lemms(morph, words + [w]) ==
      (var prev := Lemms(morph, words);
       if prev.Failure? || w == "" then prev
       else match WordLemms(morph.morphInfo(w))
         case Failure(e) => Failure(e)
         case Success(ls) => Success(prev.value + ls))
  {
    assert (words + [w])[..|words|] == words;
  }

  /** Results chained in order: the first failure wins, otherwise the lemmas concatenate. */
  function Then(a: Result<seq<string>, string>, b: Result<seq<string>, string>): Result<seq<string>, string> {
    if a.Failure? then a else if b.Failure? then b else Success(a.value + b.value)
  }

  /** Output order is input order: the lemmas of `a + b` are those of `a`
      followed by those of `b`, so no word's lemmas are emitted again for a
      later word. */
  lemma {:induction false} LemmsAppend(morph: Morphology, a: seq<string>, b: seq<string>)
    ensures Lemms(morph, a + b) == Then(Lemms(morph, a), Lemms(morph, b))
  {
    if b == [] {
      assert a + b == a;
      if Lemms(morph, a).Success? {
        assert Lemms(morph, a).value + [] == Lemms(morph, a).value;
      }
    } else {
      var init := b[..|b| - 1];
      var w := b[|b| - 1];
      assert a + b == (a + init) + [w];
      assert b == init + [w];
      LemmsAppend(morph, a, init);
      LemmsSnoc(morph, a + init, w);
      LemmsSnoc(morph, init, w);
      var wl := WordLemms(morph.morphInfo(w));
      if Lemms(morph, a).Success? && Lemms(morph, init).Success? && w != "" && wl.Success? {
        var x, y := Lemms(morph, a).value, Lemms(morph, init).value;
        assert Lemms(morph, a + b) == Success((x + y) + wl.value);
        assert (x + y) + wl.value == x + (y + wl.value);
      }
    }
  }

  /** A description that would be kept: not a function word. */
  predicate Kept(info: string) { !ServicePartExist(info) }

  /** The description of a kept entry has no `|`. */
  predicate Malformed(info: string) { Kept(info) && '|' !in info }

  lemma {:induction false} WordLemmsFailsIff(infos: seq<string>)
    ensures WordLemms(infos).Failure? <==> exists j :: 0 <= j < |infos| && Malformed(infos[j])
  {
    if infos != [] {
      var init := infos[..|infos| - 1];
      WordLemmsFailsIff(init);
      if exists j :: 0 <= j < |init| && Malformed(init[j]) {
        var j :| 0 <= j < |init| && Malformed(init[j]);
        assert infos[j] == init[j];
      }
      if exists j :: 0 <= j < |infos| && Malformed(infos[j]) {
        var j :| 0 <= j < |infos| && Malformed(infos[j]);
        if j < |init| {
          assert init[j] == infos[j];
        }
      }
    }
  }

  /** Description `j` of word `i` is kept but has no `|`. */
  predicate MalformedAt(morph: Morphology, words: seq<string>, i: int, j: int) {
    0 <= i < |words| && words[i] != "" && 0 <= j < |morph.morphInfo(words[i])| &&
    Malformed(morph.morphInfo(words[i])[j])
  }

  /** `getLemms` throws exactly when some non-empty word has a kept
      description without `|`. */
  lemma {:induction false} LemmsFailsIff(morph: Morphology, words: seq<string>)
    ensures Lemms(morph, words).Failure? <==> exists i, j :: MalformedAt(morph, words, i, j)
  {
    if words != [] {
      var init := words[..|words| - 1];
      var w := words[|words| - 1];
      LemmsFailsIff(morph, init);
      WordLemmsFailsIff(morph.morphInfo(w));
      if exists i, j :: MalformedAt(morph, init, i, j) {
        var i, j :| MalformedAt(morph, init, i, j);
        assert words[i] == init[i];
        assert MalformedAt(morph, words, i, j);
      }
      if exists i, j :: MalformedAt(morph, words, i, j) {
        var i, j :| MalformedAt(morph, words, i, j);
        if i < |init| {
          assert init[i] == words[i];
          assert MalformedAt(morph, init, i, j);
        } else {
          assert i == |words| - 1 && w != "" && Malformed(morph.morphInfo(w)[j]);
        }
      }
      if Lemms(morph, init).Success? && w != "" && WordLemms(morph.morphInfo(w)).Failure? {
        var j :| 0 <= j < |morph.morphInfo(w)| && Malformed(morph.morphInfo(w)[j]);
        assert MalformedAt(morph, words, |words| - 1, j);
      }
    }
  }

  /** The lemma a kept description contributes: its prefix before the first `|`. */
  predicate FromInfo(x: string, info: string) {
    Kept(info) && '|' in info && x == info[..IndexOfChar(info, '|')]
  }

  lemma {:induction false} WordLemmsElements(infos: seq<string>)
    requires WordLemms(infos).Success?
    ensures |WordLemms(infos).value| <= |infos|
    ensures forall x :: x in WordLemms(infos).value ==>
      exists j :: 0 <= j < |infos| && FromInfo(x, infos[j])
  {
    if infos != [] {
      var init := infos[..|infos| - 1];
      var info := infos[|infos| - 1];
      WordLemmsElements(init);
      forall x | x in WordLemms(infos).value ensures exists j :: 0 <= j < |infos| && FromInfo(x, infos[j]) {
        if x in WordLemms(init).value {
          var j :| 0 <= j < |init| && FromInfo(x, init[j]);
          assert infos[j] == init[j];
        } else {
          assert FromInfo(x, infos[|infos| - 1]);
        }
      }
    }
  }

  /** The lemma of a description: its prefix before the first `|`, or the
      whole description when it has none. */
  function BarPrefix(info: string): string {
    var bar := IndexOfChar(info, '|');
    if bar < 0 then info else info[..bar]
  }

  /** The prefixes of the kept descriptions of one word, in order. */
  function KeptPrefixes(infos: seq<string>): seq<string> {
    var kept := Filter(infos, Kept);
    seq(|kept|, i requires 0 <= i < |kept| => BarPrefix(kept[i]))
  }

  /** With no malformed description, a word's lemmas are exactly the
      prefixes of its kept descriptions, in order; with `WordLemmsFailsIff`
      this fixes the result for every input. */
  lemma {:induction false} WordLemmsOfWellFormed(infos: seq<string>)
    requires forall j :: 0 <= j < |infos| ==> !Malformed(infos[j])
    ensures WordLemms(infos) == Success(KeptPrefixes(infos))
  {
    if infos != [] {
      var init := infos[..|infos| - 1];
      var info := infos[|infos| - 1];
      assert infos == init + [info];
      forall j | 0 <= j < |init| ensures !Malformed(init[j]) {
        assert init[j] == infos[j];
      }
      WordLemmsOfWellFormed(init);
      FilterSnoc(init, info, Kept);
      var before, kept := KeptPrefixes(init), Filter(init, Kept);
      if Kept(info) {
        assert !Malformed(infos[|infos| - 1]);
        assert GetLemmWord(info) == Success(BarPrefix(info));
        assert Filter(infos, Kept) == kept + [info];
        var after := KeptPrefixes(infos);
        assert |after| == |before| + 1;
        forall i | 0 <= i < |before| ensures after[i] == before[i] {
          assert (kept + [info])[i] == kept[i];
        }
        assert after == before + [BarPrefix(info)];
      } else {
        assert Filter(infos, Kept) == kept + [];
        assert kept + [] == kept;
      }
    }
  }

  /** The prefixes of the kept descriptions of the non-empty words, word by word. */
  function AllKeptPrefixes(morph: Morphology, words: seq<string>): seq<string> {
    if words == [] then []
    else
      var w := words[|words| - 1];
      AllKeptPrefixes(morph, words[..|words| - 1]) + (if w == "" then [] else KeptPrefixes(morph.morphInfo(w)))
  }

  /** With no malformed description, `getLemms` returns exactly the prefixes
      of the kept descriptions of the non-empty words, word after word; with
      `LemmsFailsIff` this fixes the result for every input. */
  lemma {:induction false} LemmsOfWellFormed(morph: Morphology, words: seq<string>)
    requires forall i, j :: !MalformedAt(morph, words, i, j)
    ensures Lemms(morph, words) == Success(AllKeptPrefixes(morph, words))
  {
    if words != [] {
      var init := words[..|words| - 1];
      var w := words[|words| - 1];
      forall i, j ensures !MalformedAt(morph, init, i, j) {
        if 0 <= i < |init| {
          assert init[i] == words[i];
          assert !MalformedAt(morph, words, i, j);
        }
      }
      LemmsOfWellFormed(morph, init);
      if w != "" {
        forall j | 0 <= j < |morph.morphInfo(w)| ensures !Malformed(morph.morphInfo(w)[j]) {
          assert !MalformedAt(morph, words, |words| - 1, j);
        }
        WordLemmsOfWellFormed(morph.morphInfo(w));
      } else {
        assert AllKeptPrefixes(morph, words) == AllKeptPrefixes(morph, init) + [];
        assert AllKeptPrefixes(morph, init) + [] == AllKeptPrefixes(morph, init);
      }
    }
  }

  /** The number of descriptions of the non-empty words. */
  function MorphCount(morph: Morphology, words: seq<string>): nat {
    if words == [] then 0
    else
      var w := words[|words| - 1];
      MorphCount(morph, words[..|words| - 1]) + (if w == "" then 0 else |morph.morphInfo(w)|)
  }

  /** Description `j` of word `i` is kept and contributes `x`. */
  predicate FromWordAt(x: string, morph: Morphology, words: seq<string>, i: int, j: int) {
    0 <= i < |words| && words[i] != "" && 0 <= j < |morph.morphInfo(words[i])| &&
    FromInfo(x, morph.morphInfo(words[i])[j])
  }

  /** Each lemma is the prefix before `|` of a kept description of a non-empty
      word, and there are at most as many lemmas as descriptions. */
  lemma {:induction false} LemmsElements(morph: Morphology, words: seq<string>)
    requires Lemms(morph, words).Success?
    ensures |Lemms(morph, words).value| <= MorphCount(morph, words)
    ensures forall x :: x in Lemms(morph, words).value ==> exists i, j :: FromWordAt(x, morph, words, i, j)
  {
    if words != [] {
      var init := words[..|words| - 1];
      var w := words[|words| - 1];
      LemmsElements(morph, init);
      if w != "" {
        WordLemmsElements(morph.morphInfo(w));
      }
      forall x | x in Lemms(morph, words).value ensures exists i, j :: FromWordAt(x, morph, words, i, j) {
        if x in Lemms(morph, init).value {
          var i, j :| FromWordAt(x, morph, init, i, j);
          assert words[i] == init[i];
          assert FromWordAt(x, morph, words, i, j);
        } else {
          var j :| 0 <= j < |morph.morphInfo(w)| && FromInfo(x, morph.morphInfo(w)[j]);
          assert FromWordAt(x, morph, words, |words| - 1, j);
        }
      }
    }
  }

  /** A function-word description contributes nothing to its word. */
  lemma ServicePartDropped(infos: seq<string>, info: string)
    requires ServicePartExist(info)
    ensures WordLemms(infos + [info]) == WordLemms(infos)
  {
    assert (infos + [info])[..|infos|] == infos;
  }

  // ---------------------------------------------------------------------------
  // getLemmsToRelevantPageLoader
  // ---------------------------------------------------------------------------

  function Last(s: seq<string>): string
    requires s != []
  {
    s[|s| - 1]
  }

  /** `getLemmsToRelevantPageLoader`: every normal form of the lower-cased word
      is put under the word as written, so the last one stays. `lower` is
      `String.toLowerCase`. */
  method GetLemmsToRelevantPageLoader(morph: Morphology, lower: string -> string, wordsToLemmatize: seq<string>)
    returns (result: map<string, string>)
    ensures forall w :: w in result ==> w in wordsToLemmatize && morph.normalForms(lower(w)) != []
    ensures forall w :: w in wordsToLemmatize && morph.normalForms(lower(w)) != [] ==> w in result
    ensures forall w :: w in result ==> result[w] == Last(morph.normalForms(lower(w)))
  {
    result := map[];
    for i := 0 to |wordsToLemmatize|
      invariant forall w :: w in result ==> w in wordsToLemmatize[..i] && morph.normalForms(lower(w)) != []
      invariant forall w :: w in wordsToLemmatize[..i] && morph.normalForms(lower(w)) != [] ==> w in result
      invariant forall w :: w in result ==> result[w] == Last(morph.normalForms(lower(w)))
    {
      var word := wordsToLemmatize[i];
      var forms := morph.normalForms(lower(word));
      ghost var before := result;
      for j := 0 to |forms|
        invariant forall w :: w in result && w != word ==> w in before && result[w] == before[w]
        invariant forall w :: w in before ==> w in result
        invariant j > 0 ==> word in result && result[word] == forms[j - 1]
        invariant j == 0 ==> result == before
      {
        result := result[word := forms[j]];
      }
      assert wordsToLemmatize[..i + 1] == wordsToLemmatize[..i] + [word];
    }
    assert wordsToLemmatize[..|wordsToLemmatize|] == wordsToLemmatize;
  }
}
