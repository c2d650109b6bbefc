/**
 * `typeWriter` of script.js:177-186: the target is emptied, then each
 * scheduled call of the inner `type` appends the character at index `i` and
 * advances `i`, until `i` reaches the length of the text. Timer scheduling
 * becomes one step per call.
 */
module TypeWriter {

  /** The closure's index `i` and the element's content. */
  datatype Typing = Typing(next: nat, content: string)

  /** `element.innerHTML = ''` with `i = 0`. */
  const Start := Typing(0, "")

  /** One call of `type`: append `text[i]` and advance while `i < |text|`, else do nothing. */
  function Step(text: string, t: Typing): (r: Typing)
    ensures t.next < |text| ==> r.next == t.next + 1 && r.content == t.content + [text[t.next]]
    ensures t.next >= |text| ==> r == t
  {
    if t.next < |text| then Typing(t.next + 1, t.content + [text[t.next]]) else t
  }

  /** The state after `k` calls of `type`. */
  function Run(text: string, k: nat): Typing {
    if k == 0 then Start else Step(text, Run(text, k - 1))
  }

  /** After `k <= |text|` calls the content is the length-`k` prefix of the text. */
  lemma {:induction false} RunShowsPrefix(text: string, k: nat)
    requires k <= |text|
    ensures Run(text, k) == Typing(k, text[..k])
  {
    if k > 0 {
      RunShowsPrefix(text, k - 1);
      assert text[..k - 1] + [text[k - 1]] == text[..k];
    }
  }

  /**
   * After `|text|` calls the whole text is shown and the next call appends
   * nothing, so the loop stops; every later call leaves the full text.
   */
  lemma {:induction false} RunEndsWithText(text: string, k: nat)
    requires k >= |text|
    ensures Run(text, k) == Typing(|text|, text)
  {
    if k == |text| {
      RunShowsPrefix(text, k);
      assert text[..k] == text;
    } else {
      RunEndsWithText(text, k - 1);
    }
  }

  /**
   * The whole animation as a loop. `shown` lists the content after the
   * clear and after each append; `appends` counts the appends.
   */
  method Animate(text: string) returns (content: string, shown: seq<string>, appends: nat)
    ensures content == text
    ensures appends == |text|
    ensures |shown| == |text| + 1
    ensures forall k :: 0 <= k < |shown| ==> shown[k] == text[..k]
    ensures Run(text, appends) == Typing(appends, content)
  {
    var i := 0;
    content := "";
    shown := [content];
    appends := 0;
    while i < |text|
      invariant 0 <= i <= |text|
      invariant appends == i
      invariant content == text[..i]
      invariant |shown| == i + 1
      invariant forall k :: 0 <= k < |shown| ==> shown[k] == text[..k]
    {
      assert text[..i] + [text[i]] == text[..i + 1];
      content := content + [text[i]];
      i := i + 1;
      appends := appends + 1;
      shown := shown + [content];
    }
    assert text[..|text|] == text;
    RunEndsWithText(text, |text|);
  }

  /** Typing "Hi" shows "", "H" and "Hi", in that order. */
  lemma HiExample()
    ensures Run("Hi", 0).content == ""
    ensures Run("Hi", 1).content == "H"
    ensures Run("Hi", 2).content == "Hi"
  {
  }
}
