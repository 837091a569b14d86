/**
 * `prompt_yes_no`: ask a question on the terminal until the operator types
 * something that, stripped and lower-cased, is `y` or `n`.
 *
 * The terminal is modelled as the sequence of lines the operator types over the
 * whole run, shared by every prompt, together with a cursor `pos` saying how
 * many of them earlier prompts have consumed. When the lines run out before a
 * decisive one, the script would wait forever; here that is the `Exhausted`
 * reply.
 */
module Prompt {
  import opened Text

  /** What the script compares against `'y'` and `'n'`. */
  function Normalize(response: string): (normal: string)
    ensures |normal| <= |response|
  {
    Lower(Strip(response))
  }

  predicate Decisive(response: string) {
    Normalize(response) == "y" || Normalize(response) == "n"
  }

  /** Outcome of one prompt: the decision and the position just past the answer
      that made it, or the end of the answers. */
  datatype Reply = Answered(yes: bool, next: nat) | Exhausted

  /** The reply of a prompt that starts reading at `pos`: the first decisive
      answer from there on decides; every answer before it is ignored. */
  function Ask(answers: seq<string>, pos: nat): (r: Reply)
    requires pos <= |answers|
    ensures r.Answered? ==> pos < r.next <= |answers| && Decisive(answers[r.next - 1])
    ensures r.Answered? ==> r.yes == (Normalize(answers[r.next - 1]) == "y")
    ensures r.Answered? ==> forall k :: pos <= k < r.next - 1 ==> !Decisive(answers[k])
    ensures r.Exhausted? ==> forall k :: pos <= k < |answers| ==> !Decisive(answers[k])
    decreases |answers| - pos
  {
    if pos == |answers| then Exhausted
    else if Normalize(answers[pos]) == "y" then Answered(true, pos + 1)
    else if Normalize(answers[pos]) == "n" then Answered(false, pos + 1)
    else Ask(answers, pos + 1)
  }

  /** The two answers that mean yes are `y` and `Y`, with any surrounding
      whitespace; `n` and `N` likewise mean no. */
  lemma NormalizeYesNo(response: string)
    ensures Normalize(response) == "y" <==> Strip(response) == "y" || Strip(response) == "Y"
    ensures Normalize(response) == "n" <==> Strip(response) == "n" || Strip(response) == "N"
  {
    var t := Strip(response);
    if |t| == 1 {
      LowerAt(t, 0);
      assert Normalize(response) == [LowerChar(t[0])];
    } else {
      assert |Normalize(response)| == |t|;
    }
  }

  /** The prompt loop itself: keep reading answers until one is decisive. */
  method PromptYesNo(answers: seq<string>, pos: nat) returns (reply: Reply)
    requires pos <= |answers|
    ensures reply == Ask(answers, pos)
  {
    var i := pos;
    while i < |answers|
      invariant pos <= i <= |answers|
      invariant Ask(answers, pos) == Ask(answers, i)
    {
      var response := Normalize(answers[i]);
      if response == "y" {
        return Answered(true, i + 1);
      }
      if response == "n" {
        return Answered(false, i + 1);
      }
      i := i + 1;
    }
    return Exhausted;
  }
}
