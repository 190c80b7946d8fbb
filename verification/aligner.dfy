/**
  The fragment aligner (`trimAfter` in src/paste-markdown-html.ts): it cuts
  the plaintext just after the first occurrence of a search string.
 */
module Aligner {
  import opened JsString

  /** What `trimAfter` returns: the cut-off prefix and where the cut is, or -1. */
  datatype Alignment = Alignment(part: string, index: int)

  /**
    The prefix of `text` up to and including the first occurrence of
    `search`, with its length; `("", -1)` when `search` does not occur. The
    empty search string occurs at 0, so it gives `("", 0)` and not -1.
   */
  function TrimAfter(text: string, search: string): (r: Alignment)
    ensures -1 <= r.index <= |text|
    ensures r.index == -1 <==> !Occurs(text, search)
    ensures r.index == -1 ==> r.part == ""
    ensures r.index != -1 ==>
      && |search| <= r.index
      && r.part == text[..r.index]
      && r.part[r.index - |search|..] == search
      && (forall j :: 0 <= j < r.index - |search| ==> !OccursAt(text, search, j))
    ensures search == "" ==> r == Alignment("", 0)
  {
    var index := IndexOf(text, search);
    if index == -1 then Alignment("", index)
    else
      var index := index + |search|;
      Alignment(Substring(text, 0, index), index)
  }

  /** The first example beside `trimAfter`: the search string is found at the end. */
  lemma TrimAfterFound()
    ensures TrimAfter("Hello world", "world") == Alignment("Hello world", 11)
  {
    var text, search := "Hello world", "world";
    forall j | 0 <= j < 6
      ensures !OccursAt(text, search, j)
    {
      assert text[j..j + 5][4] == text[j + 4];
    }
    assert text[6..11] == search;
    assert OccursAt(text, search, 6);
    var i := IndexOf(text, search);
    assert i == 6;
  }

  /** The second example beside `trimAfter`: the search string is absent. */
  lemma TrimAfterNotFound()
    ensures TrimAfter("Hello world", "bananas") == Alignment("", -1)
  {
    var text, search := "Hello world", "bananas";
    forall j | 0 <= j && j + 7 <= |text|
      ensures !OccursAt(text, search, j)
    {
      assert text[j..j + 7][1] == text[j + 1] != 'a';
    }
    assert !Occurs(text, search);
  }
}
