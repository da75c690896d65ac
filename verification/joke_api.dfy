/** The best-of-K punchline pipeline of joke_api.py: build the prompt, clean the
    K raw generations, cut the punchline out of each, split each cleaned text
    into the (question, answer) pair the classifier scores, and return the
    punchline of the first candidate with the highest score.

    The generator's K outputs are the parameter `raw`, and the classifier's
    output is the parameter `scores`, one probability per candidate for the
    questions and answers `ClassifierInputs` builds. */
module JokeApi {
  import opened PyStr
  import opened NumPy

  /** The marker the code searches for with `find`. */
  const AnswerMarker: string := "Answer:"

  /** `len('Answser:')`, the offset the code adds to the index `find`
      returns. The literal is misspelt, so the offset is 8, one more than
      the length of AnswerMarker. */
  const PunchlineOffset: int := |"Answser:"|

  /** `'Question: ' + input_text + ' Answer:'`: the setup sits between
      "Question: " and " Answer:", and the prompt ends with the marker. */
  function Prompt(inputText: string): (p: string)
    ensures |p| == |inputText| + 18
    ensures p[..10] == "Question: " && p[10..|p| - 8] == inputText
    ensures p[|p| - 8..] == " Answer:"
    ensures OccursAt(p, AnswerMarker, |p| - 7)
  {
    "Question: " + inputText + " Answer:"
  }

  /** `[prompt] * best_of`: `best_of` copies of the prompt, and none when
      `best_of` is zero or negative. */
  function Prompts(inputText: string, bestOf: int): (ps: seq<string>)
    ensures |ps| == if bestOf > 0 then bestOf else 0
    ensures forall i :: 0 <= i < |ps| ==> ps[i] == Prompt(inputText)
    decreases bestOf
  {
    if bestOf <= 0 then [] else Prompts(inputText, bestOf - 1) + [Prompt(inputText)]
  }

  // ---------------------------------------------------------------------------
  // Cleaning a raw generation
  // ---------------------------------------------------------------------------

  /** `x.replace(eos, '').replace('\n', ' ').strip()`: the cleaned text has no
      newline, no whitespace at either end, and is never longer than the raw
      generation. */
  function Clean(raw: string, eos: string): (x: string)
    ensures Lacks(x, '\n')
    ensures NoEdgeSpace(x)
    ensures |x| <= |raw|
  {
    var noEos := Replace(raw, eos, "");
    var oneLine := Replace(noEos, "\n", " ");
    ReplaceCharRemoves(noEos, '\n', ' ');
    StripKeepsLacks(oneLine, '\n');
    Strip(oneLine)
  }

  /** A list comprehension `[f(x) for x in xs]`: one result per element, in
      the same order. */
  function Map<A, B>(f: A -> B, xs: seq<A>): (ys: seq<B>)
    ensures |ys| == |xs|
    ensures forall i :: 0 <= i < |xs| ==> ys[i] == f(xs[i])
    decreases |xs|
  {
    if xs == [] then [] else [f(xs[0])] + Map(f, xs[1..])
  }

  /** The list comprehension that builds `gentext`: one cleaned text per raw
      generation, in the same order. */
  function CleanAll(raw: seq<string>, eos: string): (gentext: seq<string>)
    ensures |gentext| == |raw|
    ensures forall i :: 0 <= i < |raw| ==> gentext[i] == Clean(raw[i], eos)
  {
    Map(x => Clean(x, eos), raw)
  }

  /** Cleaning a text that no longer contains the end-of-sequence token (or
      with an empty token) changes nothing. */
  lemma CleanIdempotent(raw: string, eos: string)
    requires eos == [] || !Contains(Clean(raw, eos), eos)
    ensures Clean(Clean(raw, eos), eos) == Clean(raw, eos)
  {
    var x := Clean(raw, eos);
    if eos != [] {
      ReplaceAbsent(x, eos, "");
    }
    assert Replace(x, eos, "") == x;
    ReplaceChar(x, '\n', ' ');
    assert Replace(x, "\n", " ") == x;
    StripNoEdgeSpace(x);
  }

  /** Cleaning is not idempotent in general: removing every occurrence of the
      token in one pass can join two halves into a new occurrence. */
  lemma CleanNotIdempotent()
    ensures Clean("aabb", "ab") == "ab"
    ensures Clean(Clean("aabb", "ab"), "ab") == ""
  {
    RemoveJoinedToken();
    assert !IsSpace('a') && !IsSpace('b');
    CleanIsTokenRemoval("aabb", "ab");
    assert Replace("ab", "ab", "") == "";
    CleanIsTokenRemoval("ab", "ab");
  }

  /** The pass over "aabb" keeps the first 'a', removes the "ab" after it and
      keeps the last 'b', which leaves a new "ab". */
  lemma RemoveJoinedToken()
    ensures Replace("aabb", "ab", "") == "ab"
  {
    assert Replace("b", "ab", "") == "b";
    assert Replace("abb", "ab", "") == "b";
  }

  /** When removing the token leaves no newline and no whitespace at either
      end, cleaning is just the token removal. */
  lemma CleanIsTokenRemoval(raw: string, eos: string)
    requires Lacks(Replace(raw, eos, ""), '\n') && NoEdgeSpace(Replace(raw, eos, ""))
    ensures Clean(raw, eos) == Replace(raw, eos, "")
  {
    var x := Replace(raw, eos, "");
    ReplaceChar(x, '\n', ' ');
    assert Replace(x, "\n", " ") == x;
    StripNoEdgeSpace(x);
  }

  // ---------------------------------------------------------------------------
  // Cutting out the punchline
  // ---------------------------------------------------------------------------

  /** `x[x.find('Answer:') + len('Answser:'):]`: always a suffix of the
      cleaned text, so the punchline is never made up. */
  function Punchline(x: string): (p: string)
    ensures |p| <= |x| && p == x[|x| - |p|..]
  {
    SliceFrom(x, Find(x, AnswerMarker) + PunchlineOffset)
  }

  /** The punchline list: one punchline per cleaned text, in the same order. */
  function Punchlines(gentext: seq<string>): (ps: seq<string>)
    ensures |ps| == |gentext|
    ensures forall i :: 0 <= i < |gentext| ==> ps[i] == Punchline(gentext[i])
  {
    Map(Punchline, gentext)
  }

  /** Where the punchline starts. When "Answer:" first occurs at `i`, it
      starts at `i + 8`, one past the end of the 7-character marker, and is
      empty when the marker ends the text. When "Answer:" does not occur,
      `find` gives -1 and the punchline is everything from index 7 on,
      empty for a text of at most 7 characters. */
  lemma PunchlineSlice(x: string, i: int)
    ensures FirstOccurrence(x, AnswerMarker, i) ==>
      Punchline(x) == if i + 7 < |x| then x[i + 8..] else []
    ensures !Contains(x, AnswerMarker) ==>
      Punchline(x) == if |x| <= 7 then [] else x[7..]
  {
    FindCharacterised(x, AnswerMarker, i);
    FindCharacterised(x, AnswerMarker, -1);
  }

  /** The slice skips the character right after the marker: the text from
      the marker on is the marker, that one character, and the punchline. */
  lemma PunchlineSkipsOneCharacter(x: string, i: int)
    requires FirstOccurrence(x, AnswerMarker, i) && i + 7 < |x|
    ensures x[i..] == AnswerMarker + [x[i + 7]] + Punchline(x)
  {
    PunchlineSlice(x, i);
    assert x[i..i + 7] == AnswerMarker;
    assert x[i..] == x[i..i + 7] + [x[i + 7]] + x[i + 8..];
  }

  /** A generation that echoes the prompt of a setup without "Answer:" in it
      and continues with `c`: `find` lands on the prompt's own marker, and
      the punchline is `c` without its first character (usually the space
      the generator puts after the marker). */
  lemma PunchlineAfterPrompt(inputText: string, c: string)
    requires !Contains(inputText, AnswerMarker)
    ensures Find(Prompt(inputText) + c, AnswerMarker) == |inputText| + 11
    ensures Punchline(Prompt(inputText) + c) == if c == [] then [] else c[1..]
  {
    var x := Prompt(inputText) + c;
    var n := |inputText| + 11;
    assert x == "Question: " + inputText + " " + AnswerMarker + c;
    assert x[n..n + 7] == AnswerMarker;
    forall j | 0 <= j < n ensures !OccursAt(x, AnswerMarker, j) {
      NoMarkerBeforePromptEnd(inputText, c, j);
    }
    FindCharacterised(x, AnswerMarker, n);
    assert x[n + 7..] == c;
  }

  /** No occurrence of "Answer:" in an echoed prompt starts before the
      prompt's own marker. */
  lemma NoMarkerBeforePromptEnd(t: string, c: string, j: int)
    requires !Contains(t, AnswerMarker)
    requires 0 <= j < |t| + 11
    ensures !OccursAt(Prompt(t) + c, AnswerMarker, j)
  {
    var x := Prompt(t) + c;
    var head := "Question: ";
    assert x == head + t + " Answer:" + c;
    if j + 7 <= |x| {
      var w := x[j..j + 7];
      if j < 10 {
        // no character of "Question: " is an 'A'
        assert w[0] == x[j] == head[j];
        assert forall k :: 0 <= k < 10 ==> head[k] != 'A';
      } else if j + 7 <= 10 + |t| {
        assert !OccursAt(t, AnswerMarker, j - 10);
        assert w == t[j - 10..j - 3];
      } else {
        // the window covers the space before the prompt's marker
        var m := 10 + |t| - j;
        assert w[m] == x[10 + |t|] == ' ';
      }
    }
  }

  // ---------------------------------------------------------------------------
  // class_tokenize_function: the (question, answer) pairs
  // ---------------------------------------------------------------------------

  /** `(x[:x.find('Answer:')], x[x.find('Answer:'):])` before stripping. The
      two parts make up the text. When the marker occurs, the answer part
      starts with it and the question part does not contain it; when it does
      not, `find` gives -1 and the answer part is the last character alone. */
  function SplitAtMarker(x: string): (parts: (string, string))
    ensures parts.0 + parts.1 == x
    ensures Contains(x, AnswerMarker) ==>
      |parts.1| >= 7 && parts.1[..7] == AnswerMarker && !Contains(parts.0, AnswerMarker)
    ensures !Contains(x, AnswerMarker) ==> |parts.1| == if x == [] then 0 else 1
  {
    var k := Find(x, AnswerMarker);
    SliceSplit(x, k);
    PrefixContains(x, if k < 0 then 0 else k, AnswerMarker);
    (SliceTo(x, k), SliceFrom(x, k))
  }

  /** An occurrence in a prefix of `x` is an occurrence in `x` that starts
      before the prefix ends. */
  lemma PrefixContains(x: string, k: int, sub: string)
    requires 0 <= k <= |x|
    ensures Contains(x[..k], sub) ==> exists j :: 0 <= j && j + |sub| <= k && OccursAt(x, sub, j)
  {
    if Contains(x[..k], sub) {
      var j :| OccursAt(x[..k], sub, j);
      assert x[..k][j..j + |sub|] == x[j..j + |sub|];
      assert OccursAt(x, sub, j);
    }
  }

  /** The question text the classifier sees: `x[:x.find('Answer:')].strip()`.
      It never contains "Answer:": with the marker it stops before the first
      one, and without it it is part of a text that has none. */
  function Question(x: string): (q: string)
    ensures |q| <= |x| && NoEdgeSpace(q)
    ensures !Contains(q, AnswerMarker)
  {
    var parts := SplitAtMarker(x);
    assert x[0..|parts.0|] == parts.0;
    InfixContains(x, parts.0, 0, AnswerMarker);
    StripKeepsAbsence(parts.0, AnswerMarker);
    Strip(parts.0)
  }

  /** The answer text the classifier sees: `x[x.find('Answer:'):].strip()`.
      Without the marker it is at most one character, the text's last. */
  function Answer(x: string): (a: string)
    ensures |a| <= |x| && NoEdgeSpace(a)
    ensures !Contains(x, AnswerMarker) ==> |a| <= 1
  {
    Strip(SplitAtMarker(x).1)
  }

  /** When the marker occurs, stripping keeps the answer starting with
      "Answer:" and keeps the question free of it. */
  lemma QuestionAnswerShape(x: string)
    ensures Contains(x, AnswerMarker) ==>
      |Answer(x)| >= 7 && Answer(x)[..7] == AnswerMarker && !Contains(Question(x), AnswerMarker)
  {
    if Contains(x, AnswerMarker) {
      var parts := SplitAtMarker(x);
      StripKeepsAbsence(parts.0, AnswerMarker);
      StripKeepsMarker(parts.1);
    }
  }

  /** `strip` keeps a leading "Answer:": neither its first nor its last
      character is whitespace. */
  lemma StripKeepsMarker(y: string)
    requires |y| >= 7 && y[..7] == AnswerMarker
    ensures |Strip(y)| >= 7 && Strip(y)[..7] == AnswerMarker
  {
    var a := Strip(y);
    var i := FirstNonSpace(y, 0);
    assert y[0] == y[..7][0] == 'A';
    assert y[6] == y[..7][6] == ':';
    assert i == 0;
    assert |a| >= 7;
    assert a[..7] == y[i..i + |a|][..7] == y[..7];
  }

  /** The two lists `class_tokenize_function` builds from the `gentext`
      column: one question and one answer per cleaned text, index for index. */
  function ClassifierInputs(gentext: seq<string>): (qa: (seq<string>, seq<string>))
    ensures |qa.0| == |gentext| && |qa.1| == |gentext|
    ensures forall i :: 0 <= i < |gentext| ==> qa.0[i] == Question(gentext[i]) && qa.1[i] == Answer(gentext[i])
  {
    (Map(Question, gentext), Map(Answer, gentext))
  }

  /** When the unstripped question and answer of a text are joined, the text
      comes back; when the marker is absent the question is all of it but
      the last character. */
  lemma SplitWithoutMarker(x: string)
    requires !Contains(x, AnswerMarker) && x != []
    ensures SplitAtMarker(x).0 == x[..|x| - 1] && SplitAtMarker(x).1 == [x[|x| - 1]]
  {
    var (q, a) := SplitAtMarker(x);
    assert x[..|q|] == q;
  }

  // ---------------------------------------------------------------------------
  // get_punchline
  // ---------------------------------------------------------------------------

  /** The exception `np.max` raises on an empty array. */
  datatype PyError = ZeroSizeReduction

  /** How a call of `get_punchline` ends: it returns a punchline (and
      reports the best score), or it raises. */
  datatype Outcome =
    | Returned(punchline: string, reportedMax: real)
    | Raised(error: PyError)

  /** Lines 72-74 of `get_punchline`: print `np.max(probs)` (which raises
      on an empty array) and return `punchlines[np.argmax(probs)]`. The
      result is the punchline at the first index of a maximal score, and the
      reported value is that score, which no score exceeds. */
  function Select(punchlines: seq<string>, scores: seq<real>): (r: Outcome)
    requires |scores| == |punchlines|
    ensures r.Raised? <==> scores == []
    ensures r.Returned? ==>
      exists j :: IsFirstMax(scores, j) && r.punchline == punchlines[j] && r.reportedMax == scores[j]
    ensures r.Returned? ==> forall i :: 0 <= i < |scores| ==> scores[i] <= r.reportedMax
  {
    if |scores| == 0 then Raised(ZeroSizeReduction)
    else
      var j := ArgMax(scores);
      MaxAtArgMax(scores);
      ArgMaxCharacterised(scores, j);
      Returned(punchlines[j], Max(scores))
  }

  /** `get_punchline(input_text, vanilla_gpt2, best_of)` once the generator
      has produced `raw` and the classifier has scored the candidates with
      `scores`, one probability per candidate. With no candidate it raises;
      otherwise it returns the punchline of the first candidate whose score is
      maximal and reports that score, a score no other candidate exceeds. */
  function GetPunchline(inputText: string, bestOf: int, eos: string, raw: seq<string>,
                        scores: seq<real>): (r: Outcome)
    requires |raw| == |Prompts(inputText, bestOf)|
    requires |scores| == |raw|
    ensures r.Raised? <==> bestOf < 1
    ensures r.Returned? ==>
      exists j :: IsFirstMax(scores, j)
               && r.punchline == Punchline(Clean(raw[j], eos))
               && r.reportedMax == scores[j]
  {
    CandidatePunchlines(raw, eos);
    Select(Punchlines(CleanAll(raw, eos)), scores)
  }

  /** The punchline list of the cleaned generations holds, at each index, the
      punchline of that generation cleaned. */
  lemma CandidatePunchlines(raw: seq<string>, eos: string)
    ensures |Punchlines(CleanAll(raw, eos))| == |raw|
    ensures forall j :: 0 <= j < |raw| ==> Punchlines(CleanAll(raw, eos))[j] == Punchline(Clean(raw[j], eos))
  {
    var gentext := CleanAll(raw, eos);
    forall j | 0 <= j < |raw| ensures Punchlines(gentext)[j] == Punchline(Clean(raw[j], eos)) {
      assert gentext[j] == Clean(raw[j], eos);
    }
  }

  /** The converse of `GetPunchline`'s contract: whichever index is the first
      maximum of the scores, its candidate's punchline and score are what
      the call returns. */
  lemma ReturnsFirstMax(inputText: string, bestOf: int, eos: string, raw: seq<string>,
                        scores: seq<real>, j: int)
    requires |raw| == |Prompts(inputText, bestOf)| && |scores| == |raw|
    requires IsFirstMax(scores, j)
    ensures GetPunchline(inputText, bestOf, eos, raw, scores) == Returned(Punchline(Clean(raw[j], eos)), scores[j])
  {
    var r := GetPunchline(inputText, bestOf, eos, raw, scores);
    var k :| IsFirstMax(scores, k) && r.punchline == Punchline(Clean(raw[k], eos)) && r.reportedMax == scores[k];
    ArgMaxCharacterised(scores, j);
    ArgMaxCharacterised(scores, k);
  }

  /** With a single candidate its punchline is returned whatever its score. */
  lemma SingleCandidate(inputText: string, eos: string, raw: seq<string>, scores: seq<real>)
    requires |raw| == 1 && |scores| == 1
    ensures GetPunchline(inputText, 1, eos, raw, scores) == Returned(Punchline(Clean(raw[0], eos)), scores[0])
  {
    ReturnsFirstMax(inputText, 1, eos, raw, scores, 0);
  }

  /** Of several candidates sharing the maximal score, the one chosen is the
      earliest with that score: a later one is never chosen over it. */
  lemma TieGoesToEarliest(inputText: string, bestOf: int, eos: string, raw: seq<string>,
                          scores: seq<real>, i: int, j: int)
    requires |raw| == |Prompts(inputText, bestOf)| && |scores| == |raw|
    requires 0 <= i < j < |raw| && scores[i] == scores[j]
    requires forall k :: 0 <= k < |raw| ==> scores[k] <= scores[i]
    ensures exists k :: (0 <= k <= i && IsFirstMax(scores, k) &&
      GetPunchline(inputText, bestOf, eos, raw, scores) == Returned(Punchline(Clean(raw[k], eos)), scores[i]))
  {
    var k := ArgMax(scores);
    ArgMaxCharacterised(scores, k);
    assert scores[i] <= scores[k] && scores[k] <= scores[i];
    ReturnsFirstMax(inputText, bestOf, eos, raw, scores, k);
  }
}
