/** A three-candidate run of `get_punchline` on the setup of the `__main__`
    demo, "Why did frogs eat the cheese?", with generations that echo the
    prompt and end with the end-of-sequence token, and scores 0.9, 0.2 and
    0.4. */
module JokeScenario {
  import opened PyStr
  import opened NumPy
  import opened JokeApi

  const Setup: string := "Why did frogs eat the cheese?"
  const Eos: string := "<|endoftext|>"

  /** Cleaning a generation that is the prompt, a continuation and the
      end-of-sequence token gives the prompt and the continuation back, when
      the token's first character, the newline and trailing whitespace are
      absent from them. */
  lemma CleanEchoedGeneration(t: string, p: string, eos: string)
    requires eos != []
    requires Lacks(Prompt(t) + p, eos[0]) && Lacks(Prompt(t) + p, '\n')
    requires NoEdgeSpace(Prompt(t) + p)
    ensures Clean(Prompt(t) + p + eos, eos) == Prompt(t) + p
  {
    var u := Prompt(t) + p;
    RemoveTrailing(u, eos);
    ReplaceChar(u, '\n', ' ');
    assert Replace(u, "\n", " ") == u;
    StripNoEdgeSpace(u);
  }

  /** One candidate of the example: its cleaned punchline is the continuation
      without the space that follows the marker. */
  lemma CandidatePunchline(p: string)
    requires |p| >= 2 && p[0] == ' ' && !IsSpace(p[|p| - 1])
    requires Lacks(p, '<') && Lacks(p, '\n')
    ensures Punchline(Clean(Prompt(Setup) + p + Eos, Eos)) == p[1..]
  {
    assert Lacks(Setup, '<') && Lacks(Setup, '\n') && Lacks(Setup, 'A');
    var u := Prompt(Setup) + p;
    assert u == "Question: " + Setup + " Answer:" + p;
    assert Lacks(u, '<') && Lacks(u, '\n');
    assert u[0] == 'Q' && u[|u| - 1] == p[|p| - 1];
    CleanEchoedGeneration(Setup, p, Eos);
    LacksFirstCharacter(Setup, AnswerMarker);
    PunchlineAfterPrompt(Setup, p);
  }

  /** Whatever the setup, the token and the three generations are, scores
      0.9, 0.2 and 0.4 make the first candidate's punchline the one returned. */
  lemma FirstOfThreeWins(inputText: string, eos: string, raw: seq<string>)
    requires |raw| == 3
    ensures GetPunchline(inputText, 3, eos, raw, [0.9, 0.2, 0.4]) == Returned(Punchline(Clean(raw[0], eos)), 0.9)
  {
    var scores := [0.9, 0.2, 0.4];
    assert IsFirstMax(scores, 0);
    ReturnsFirstMax(inputText, 3, eos, raw, scores, 0);
  }

  /** With scores 0.9, 0.2 and 0.4 the first candidate's punchline is
      returned, and 0.9 is the score reported. */
  lemma FrogsAndCheese(raw: seq<string>)
    requires raw == [Prompt(Setup) + " Because it was Brie-lliant." + Eos,
                     Prompt(Setup) + " No reason." + Eos,
                     Prompt(Setup) + " Tadpole hunger." + Eos]
    ensures GetPunchline(Setup, 3, Eos, raw, [0.9, 0.2, 0.4]) == Returned("Because it was Brie-lliant.", 0.9)
  {
    var first := " Because it was Brie-lliant.";
    CandidatePunchline(first);
    assert raw[0] == Prompt(Setup) + first + Eos;
    FirstOfThreeWins(Setup, Eos, raw);
  }
}
